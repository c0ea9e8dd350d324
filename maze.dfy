/** The grid state spaces of `maze.py`: the occupancy grid shared by both mazes, the
    line-marching collision check, the index/state codecs of `Maze2D` and `Maze4D`, and
    their successor generators. */
module Mazes {
  import opened Wrappers

  /** The maze array: `cells[x][y]` for `0 <= x < cols` and `0 <= y < rows`; a cell
      holding 0 is occupied, any other value is free space. */
  datatype Maze = Maze(cells: seq<seq<real>>, cols: int, rows: int)

  /** A `Maze4D`: the grid plus the speed limit `max_vel`. */
  datatype Maze4 = Maze4(maze: Maze, maxVel: nat)

  /** A 2D state `(x, y)`. */
  datatype Pos = Pos(x: int, y: int)

  /** A 4D state `(x, y, vx, vy)`. */
  datatype State4 = State4(x: int, y: int, vx: int, vy: int)

  /** The array is a non-empty `cols` by `rows` rectangle. */
  predicate WellFormed(m: Maze) {
    && m.cols > 0 && m.rows > 0
    && |m.cells| == m.cols
    && forall x :: 0 <= x < |m.cells| ==> |m.cells[x]| == m.rows
  }

  predicate InMaze(m: Maze, p: Pos) {
    0 <= p.x < m.cols && 0 <= p.y < m.rows
  }

  /** A cell inside the maze that is not an obstacle. */
  predicate FreeCell(m: Maze, p: Pos)
    requires WellFormed(m)
  {
    InMaze(m, p) && m.cells[p.x][p.y] != 0.0
  }

  function Abs(a: int): nat {
    if a < 0 then -a else a
  }

  function Max(a: int, b: int): int {
    if a < b then b else a
  }

  function Moved(p: Pos, d: (int, int)): Pos {
    Pos(p.x + d.0, p.y + d.1)
  }

  // ---------------------------------------------------------------------------
  // Integer division as the source computes it
  // ---------------------------------------------------------------------------

  /** `int(np.floor(a / b))` for integers and a positive divisor. The model computes it
      as Dafny's Euclidean quotient; `FloorOfQuotient` shows that this is the floor of the
      exact quotient the source takes. */
  function FloorDiv(a: int, b: int): (q: int)
    requires b > 0
    ensures q * b <= a < q * b + b
  {
    a / b
  }

  /** The floor of the exact rational quotient is the Euclidean quotient `FloorDiv`. */
  lemma FloorOfQuotient(a: int, b: int)
    requires b > 0
    ensures ((a as real) / (b as real)).Floor == FloorDiv(a, b)
  {
    var q, r := a / b, a % b;
    assert a == q * b + r && 0 <= r < b;
    var f := (r as real) / (b as real);
    assert 0.0 <= f < 1.0;
    assert (a as real) == (q as real) * (b as real) + (r as real);
    assert (a as real) / (b as real) == (q as real) + f;
  }

  /** The quotient and remainder of a division are the only pair with `0 <= r < n`. */
  lemma DivModUnique(a: int, n: int, q: int, r: int)
    requires n > 0 && 0 <= r < n && a == q * n + r
    ensures a / n == q && a % n == r
  {
    var q', r' := a / n, a % n;
    assert a == q' * n + r' && 0 <= r' < n;
    assert (q - q') * n == r' - r;
    if q < q' {
      MulAtLeast(q' - q, n);
    } else if q' < q {
      MulAtLeast(q - q', n);
    }
  }

  lemma MulAtLeast(k: int, n: int)
    requires k >= 1 && n > 0
    ensures k * n >= n
  {
  }

  lemma MulPositive(a: int, b: int)
    requires a > 0 && b > 0
    ensures a * b > 0
  {
  }

  lemma MulMono(a: int, b: int, n: int)
    requires a <= b && n >= 0
    ensures a * n <= b * n
  {
  }

  /** A digit `q < k` followed by a digit `r < n` forms a number below `k * n`. */
  lemma MixedBelow(q: int, r: int, n: int, k: int)
    requires 0 <= q < k && 0 <= r < n
    ensures 0 <= q * n + r < k * n
  {
    MulMono(q, k - 1, n);
    MulMono(0, q, n);
  }

  /** A number below `k * n` has a quotient by `n` below `k`. */
  lemma QuotientBelow(a: int, n: int, k: int)
    requires n > 0 && 0 <= a < k * n
    ensures 0 <= a / n < k
  {
    if a / n >= k {
      MulMono(k, a / n, n);
    }
  }

  // ---------------------------------------------------------------------------
  // Maze2D codec
  // ---------------------------------------------------------------------------

  /** `Maze2D.index_from_state`. */
  function Index2(m: Maze, p: Pos): int {
    p.x * m.rows + p.y
  }

  /** `Maze2D.state_from_index`. */
  function State2(m: Maze, i: int): Pos
    requires m.rows > 0
  {
    Pos(FloorDiv(i, m.rows), i % m.rows)
  }

  /** Decoding an encoded state gives it back, for any column and any `0 <= y < rows`. */
  lemma State2OfIndex2(m: Maze, p: Pos)
    requires m.rows > 0 && 0 <= p.y < m.rows
    ensures State2(m, Index2(m, p)) == p
  {
    DivModUnique(Index2(m, p), m.rows, p.x, p.y);
  }

  /** Encoding a decoded index gives it back, for every integer. */
  lemma Index2OfState2(m: Maze, i: int)
    requires m.rows > 0
    ensures Index2(m, State2(m, i)) == i
    ensures 0 <= State2(m, i).y < m.rows
  {
  }

  /** The cells of the maze take exactly the indices `0 .. rows*cols - 1`. */
  lemma Index2Range(m: Maze, p: Pos)
    requires m.rows > 0 && 0 <= p.y < m.rows
    ensures InMaze(m, p) <==> 0 <= Index2(m, p) < m.rows * m.cols
  {
    var i := Index2(m, p);
    if InMaze(m, p) {
      MixedBelow(p.x, p.y, m.rows, m.cols);
      assert m.cols * m.rows == m.rows * m.cols;
    }
    if 0 <= i < m.rows * m.cols {
      DivModUnique(i, m.rows, p.x, p.y);
      assert m.cols * m.rows == m.rows * m.cols;
      QuotientBelow(i, m.rows, m.cols);
    }
  }

  // ---------------------------------------------------------------------------
  // Maze4D codec
  // ---------------------------------------------------------------------------

  /** The size of a `Maze4D` state space: `rows * cols * (max_vel + 1)^2`. */
  function MapSize(m4: Maze4): int {
    m4.maze.rows * m4.maze.cols * (m4.maxVel + 1) * (m4.maxVel + 1)
  }

  /** A 4D state whose four components all lie in range. */
  predicate ValidState4(m4: Maze4, s: State4) {
    && InMaze(m4.maze, Pos(s.x, s.y))
    && 0 <= s.vx <= m4.maxVel
    && 0 <= s.vy <= m4.maxVel
  }

  /** `Maze4D.index_from_state`. */
  function Index4(m4: Maze4, s: State4): int {
    var v := m4.maxVel + 1;
    var rows, cols := m4.maze.rows, m4.maze.cols;
    s.vy * rows * cols * v + s.vx * rows * cols + s.x * rows + s.y
  }

  /** `Maze4D.state_from_index`: peel off `vy`, then `vx`, then `x`, each by a floored
      quotient; the remainder is `y`. */
  function State4Of(m4: Maze4, i: int): State4
    requires m4.maze.rows > 0 && m4.maze.cols > 0
  {
    var v := m4.maxVel + 1;
    var rows, cols := m4.maze.rows, m4.maze.cols;
    MulPositive(rows, cols);
    MulPositive(rows * cols, v);
    var rc := rows * cols;
    var rcv := rc * v;
    var dy := FloorDiv(i, rcv);
    var i1 := i - dy * rcv;
    var dx := FloorDiv(i1, rc);
    var i2 := i1 - dx * rc;
    var x := FloorDiv(i2, rows);
    var y := i2 % rows;
    State4(x, y, dx, dy)
  }

  /** `Index4` regrouped as nested digits: `vy`, then `vx` below `max_vel + 1`, then the
      2D index below `rows * cols`. */
  lemma Index4Horner(m4: Maze4, s: State4)
    ensures var rc := m4.maze.rows * m4.maze.cols;
      Index4(m4, s) == s.vy * (rc * (m4.maxVel + 1)) + (s.vx * rc + (s.x * m4.maze.rows + s.y))
  {
    var v, rows, cols := m4.maxVel + 1, m4.maze.rows, m4.maze.cols;
    assert s.vy * rows * cols * v == s.vy * (rows * cols * v);
  }

  /** Decoding an encoded state gives it back whenever its position is in the maze and
      `0 <= vx <= max_vel` (`vy` may be anything). */
  lemma State4OfIndex4(m4: Maze4, s: State4)
    requires m4.maze.rows > 0 && m4.maze.cols > 0
    requires InMaze(m4.maze, Pos(s.x, s.y)) && 0 <= s.vx <= m4.maxVel
    ensures State4Of(m4, Index4(m4, s)) == s
  {
    var v, rows, cols := m4.maxVel + 1, m4.maze.rows, m4.maze.cols;
    MulPositive(rows, cols);
    var rc := rows * cols;
    MulPositive(rc, v);
    var low := s.x * rows + s.y;
    Index2Range(m4.maze, Pos(s.x, s.y));
    var mid := s.vx * rc + low;
    MixedBelow(s.vx, low, rc, v);
    Index4Horner(m4, s);
    DivModUnique(Index4(m4, s), rc * v, s.vy, mid);
    DivModUnique(mid, rc, s.vx, low);
    DivModUnique(low, rows, s.x, s.y);
  }

  /** Encoding a decoded index gives it back, for every integer; the decoded position is
      in the maze and `0 <= vx <= max_vel`. */
  lemma Index4OfState4(m4: Maze4, i: int)
    requires m4.maze.rows > 0 && m4.maze.cols > 0
    ensures Index4(m4, State4Of(m4, i)) == i
    ensures var s := State4Of(m4, i); InMaze(m4.maze, Pos(s.x, s.y)) && 0 <= s.vx <= m4.maxVel
  {
    var v, rows, cols := m4.maxVel + 1, m4.maze.rows, m4.maze.cols;
    var s := State4Of(m4, i);
    MulPositive(rows, cols);
    var rc := rows * cols;
    MulPositive(rc, v);
    var i1 := i - s.vy * (rc * v);
    var i2 := i1 - s.vx * rc;
    assert 0 <= i1 < v * rc;
    QuotientBelow(i1, rc, v);
    assert 0 <= i2 < cols * rows;
    QuotientBelow(i2, rows, cols);
    Index4Horner(m4, s);
  }

  /** A valid 4D state has an index in `[0, MapSize)`, the range of the arrays `Astar`
      allocates. */
  lemma Index4Bounds(m4: Maze4, s: State4)
    requires m4.maze.rows > 0 && m4.maze.cols > 0
    requires ValidState4(m4, s)
    ensures 0 <= Index4(m4, s) < MapSize(m4)
  {
    var v, rows, cols := m4.maxVel + 1, m4.maze.rows, m4.maze.cols;
    var rc := rows * cols;
    var rcv := rc * v;
    var low := s.x * rows + s.y;
    var mid := s.vx * rc + low;
    Index2Range(m4.maze, Pos(s.x, s.y));
    assert 0 <= low < rc;
    MixedBelow(s.vx, low, rc, v);
    assert v * rc == rcv;
    MixedBelow(s.vy, mid, rcv, v);
    Index4Horner(m4, s);
    assert Index4(m4, s) == s.vy * rcv + mid;
    assert MapSize(m4) == rcv * v;
    assert v * rcv == rcv * v;
  }

  // ---------------------------------------------------------------------------
  // Occupancy and the collision march
  // ---------------------------------------------------------------------------

  /** numpy's reading of an index into an axis of length `n`: `[-n, 0)` counts from the
      end. */
  function Wrap(i: int, n: int): int {
    if i < 0 then i + n else i
  }

  /** `check_occupancy`: whether the cell holds 0, with numpy's indexing: a negative index
      counts from the end, and an index outside `[-n, n)` is an `IndexError` (`None`). */
  function CheckOccupancy(m: Maze, p: Pos): (r: Option<bool>)
    requires WellFormed(m)
    ensures r.Some? <==> -m.cols <= p.x < m.cols && -m.rows <= p.y < m.rows
    ensures InMaze(m, p) ==> r == Some(!FreeCell(m, p))
    ensures r.Some? ==> r == Some(!FreeCell(m, Pos(Wrap(p.x, m.cols), Wrap(p.y, m.rows))))
  {
    if -m.cols <= p.x < m.cols && -m.rows <= p.y < m.rows then
      Some(m.cells[Wrap(p.x, m.cols)][Wrap(p.y, m.rows)] == 0.0)
    else
      None
  }

  /** The number of steps `check_hit` takes: `max(|dx|, |dy|)`. */
  function Norm(d: (int, int)): nat {
    Max(Abs(d.0), Abs(d.1))
  }

  /** The coordinate reached after `k` steps of size `d / norm` from `p0`, in exact
      arithmetic. */
  function March(p0: int, d: int, norm: int, k: int): real
    requires norm > 0
  {
    p0 as real + (k as real) * ((d as real) / (norm as real))
  }

  /** A point of the plane inside the maze whose cell (by truncation, which is the floor
      for non-negative coordinates) is free. */
  predicate FreePoint(m: Maze, px: real, py: real)
    requires WellFormed(m)
  {
    && 0.0 <= px < m.cols as real && 0.0 <= py < m.rows as real
    && m.cells[px.Floor][py.Floor] != 0.0
  }

  /** When `check_hit` finds nothing: the start cell is in the maze and free, and so is
      each of the `Norm(d)` points of the march towards `start + d`. */
  predicate Clear(m: Maze, start: Pos, d: (int, int))
    requires WellFormed(m)
  {
    && FreeCell(m, start)
    && (d == (0, 0) ||
        forall k :: 1 <= k <= Norm(d) ==>
          FreePoint(m, March(start.x, d.0, Norm(d), k), March(start.y, d.1, Norm(d), k)))
  }

  /** `check_hit`: march from `start` towards `start + deltas` in `Norm(deltas)` equal
      steps and report whether the maze is left or an occupied cell is entered. */
  method CheckHit(m: Maze, start: Pos, deltas: (int, int)) returns (hit: bool)
    requires WellFormed(m)
    ensures hit == !Clear(m, start, deltas)
    ensures !FreeCell(m, start) ==> hit
    ensures FreeCell(m, start) && deltas == (0, 0) ==> !hit
  {
    var x, y := start.x as real, start.y as real;
    var (dx, dy) := deltas;
    if x < 0.0 || y < 0.0 || x >= m.cols as real || y >= m.rows as real {
      return true;
    }
    if m.cells[start.x][start.y] == 0.0 {
      return true;
    }
    if dx == 0 && dy == 0 {
      return false;
    }
    var norm := Max(Abs(dx), Abs(dy));
    assert norm == Norm(deltas) > 0;
    var sx, sy := (dx as real) / (norm as real), (dy as real) / (norm as real);
    for i := 0 to norm
      invariant x == March(start.x, dx, norm, i) && y == March(start.y, dy, norm, i)
      invariant forall k :: 1 <= k <= i ==>
        FreePoint(m, March(start.x, dx, norm, k), March(start.y, dy, norm, k))
    {
      MarchStep(start.x, dx, norm, i);
      MarchStep(start.y, dy, norm, i);
      x, y := x + sx, y + sy;
      if x < 0.0 || y < 0.0 || x >= m.cols as real || y >= m.rows as real {
        assert !FreePoint(m, March(start.x, dx, norm, i + 1), March(start.y, dy, norm, i + 1));
        return true;
      }
      if m.cells[x.Floor][y.Floor] == 0.0 {
        assert !FreePoint(m, March(start.x, dx, norm, i + 1), March(start.y, dy, norm, i + 1));
        return true;
      }
    }
    return false;
  }

  lemma MarchStep(p0: int, d: int, norm: int, k: int)
    requires norm > 0
    ensures March(p0, d, norm, k + 1) == March(p0, d, norm, k) + (d as real) / (norm as real)
  {
  }

  /** The march ends exactly on `start + d`. */
  lemma MarchEnd(p0: int, d: int, norm: int)
    requires norm > 0
    ensures March(p0, d, norm, norm) == (p0 + d) as real
  {
  }

  /** A move `check_hit` accepts ends on a free cell of the maze. */
  lemma ClearEndpoint(m: Maze, start: Pos, d: (int, int))
    requires WellFormed(m) && Clear(m, start, d)
    ensures FreeCell(m, Moved(start, d))
  {
    if d != (0, 0) {
      var n := Norm(d);
      MarchEnd(start.x, d.0, n);
      MarchEnd(start.y, d.1, n);
      assert FreePoint(m, March(start.x, d.0, n, n), March(start.y, d.1, n, n));
    }
  }

  /** For a one-cell move along an axis, `check_hit` inspects exactly the start and the
      end cell. */
  lemma ClearUnitStep(m: Maze, start: Pos, d: (int, int))
    requires WellFormed(m) && Abs(d.0) + Abs(d.1) == 1
    ensures Clear(m, start, d) <==> FreeCell(m, start) && FreeCell(m, Moved(start, d))
  {
    if FreeCell(m, start) && FreeCell(m, Moved(start, d)) {
      assert Norm(d) == 1;
      MarchEnd(start.x, d.0, 1);
      MarchEnd(start.y, d.1, 1);
      assert FreePoint(m, March(start.x, d.0, 1, 1), March(start.y, d.1, 1, 1));
    }
    if Clear(m, start, d) {
      ClearEndpoint(m, start, d);
    }
  }

  // ---------------------------------------------------------------------------
  // Successor generators
  // ---------------------------------------------------------------------------

  /** The motions of `Maze2D.get_neighbors`, in order. */
  const Deltas2: seq<(int, int)> := [(0, -1), (0, 1), (-1, 0), (1, 0)]

  /** The indices `Maze2D.get_neighbors` collects from `p` over the motions `ds`: one per
      motion that `check_hit` lets through, in motion order. */
  function Successors2(m: Maze, p: Pos, ds: seq<(int, int)>): seq<int>
    requires WellFormed(m)
  {
    if ds == [] then []
    else
      var d := ds[|ds| - 1];
      Successors2(m, p, ds[..|ds| - 1]) + (if Clear(m, p, d) then [Index2(m, Moved(p, d))] else [])
  }

  /** `Maze2D.get_neighbors`. */
  method GetNeighbors2(m: Maze, stateId: int) returns (neighbors: seq<int>)
    requires WellFormed(m)
    ensures neighbors == Successors2(m, State2(m, stateId), Deltas2)
  {
    var state := State2(m, stateId);
    var deltas := Deltas2;
    neighbors := [];
    for j := 0 to |deltas|
      invariant neighbors == Successors2(m, state, deltas[..j])
    {
      assert deltas[..j + 1][..j] == deltas[..j];
      var hit := CheckHit(m, state, deltas[j]);
      if !hit {
        var newState := Pos(state.x + deltas[j].0, state.y + deltas[j].1);
        neighbors := neighbors + [Index2(m, newState)];
      }
    }
    assert deltas[..|deltas|] == deltas;
  }

  /** The successors over `ds` are exactly the indices of the moves that `check_hit`
      accepts, at most one per motion. */
  lemma {:induction false} Successors2Members(m: Maze, p: Pos, ds: seq<(int, int)>)
    requires WellFormed(m)
    ensures |Successors2(m, p, ds)| <= |ds|
    ensures forall n :: n in Successors2(m, p, ds) <==>
      exists j :: 0 <= j < |ds| && Clear(m, p, ds[j]) && n == Index2(m, Moved(p, ds[j]))
    decreases |ds|
  {
    if ds != [] {
      var ds' := ds[..|ds| - 1];
      Successors2Members(m, p, ds');
      forall n
        ensures n in Successors2(m, p, ds) <==>
          exists j :: 0 <= j < |ds| && Clear(m, p, ds[j]) && n == Index2(m, Moved(p, ds[j]))
      {
        if n in Successors2(m, p, ds) && n !in Successors2(m, p, ds') {
          var j := |ds| - 1;
          assert Clear(m, p, ds[j]) && n == Index2(m, Moved(p, ds[j]));
        }
        if exists j :: 0 <= j < |ds| && Clear(m, p, ds[j]) && n == Index2(m, Moved(p, ds[j])) {
          var j :| 0 <= j < |ds| && Clear(m, p, ds[j]) && n == Index2(m, Moved(p, ds[j]));
          if j < |ds| - 1 {
            assert ds'[j] == ds[j];
          }
        }
      }
    }
  }

  /** Two cells one step apart along an axis. */
  predicate Adjacent(p: Pos, q: Pos) {
    Abs(q.x - p.x) + Abs(q.y - p.y) == 1
  }

  /** What makes `n` a neighbour of cell `p` in a `Maze2D`: `p` is a free cell of the
      maze, `n` is the index of a free cell of the maze adjacent to it. */
  predicate IsNeighbor2(m: Maze, p: Pos, n: int)
    requires WellFormed(m)
  {
    && FreeCell(m, p)
    && FreeCell(m, State2(m, n))
    && Adjacent(p, State2(m, n))
    && 0 <= n < m.rows * m.cols
  }

  lemma Neighbor2Sound(m: Maze, p: Pos, j: int)
    requires WellFormed(m) && 0 <= j < 4 && Clear(m, p, Deltas2[j])
    ensures IsNeighbor2(m, p, Index2(m, Moved(p, Deltas2[j])))
  {
    var q := Moved(p, Deltas2[j]);
    ClearUnitStep(m, p, Deltas2[j]);
    State2OfIndex2(m, q);
    Index2Range(m, q);
  }

  lemma Neighbor2Complete(m: Maze, p: Pos, n: int)
    requires WellFormed(m) && IsNeighbor2(m, p, n)
    ensures exists j :: 0 <= j < |Deltas2| && Clear(m, p, Deltas2[j]) && n == Index2(m, Moved(p, Deltas2[j]))
  {
    var q := State2(m, n);
    Index2OfState2(m, n);
    var d := (q.x - p.x, q.y - p.y);
    assert d in Deltas2;
    var j :| 0 <= j < 4 && Deltas2[j] == d;
    assert Moved(p, d) == q;
    ClearUnitStep(m, p, d);
  }

  /** `Maze2D.get_neighbors` returns at most four indices, and an index is among them
      exactly when it is the index of a free cell adjacent to the state's cell, itself free
      and in the maze. */
  lemma Neighbors2Correct(m: Maze, stateId: int)
    requires WellFormed(m)
    ensures var p := State2(m, stateId);
      var ns := Successors2(m, p, Deltas2);
      && |ns| <= 4
      && forall n :: n in ns <==> IsNeighbor2(m, p, n)
  {
    var p := State2(m, stateId);
    Successors2Members(m, p, Deltas2);
    forall n
      ensures n in Successors2(m, p, Deltas2) <==> IsNeighbor2(m, p, n)
    {
      if n in Successors2(m, p, Deltas2) {
        var j :| 0 <= j < |Deltas2| && Clear(m, p, Deltas2[j]) && n == Index2(m, Moved(p, Deltas2[j]));
        Neighbor2Sound(m, p, j);
      }
      if IsNeighbor2(m, p, n) {
        Neighbor2Complete(m, p, n);
      }
    }
  }

  /** The accelerations of `Maze4D.get_neighbors`, in order; the last one keeps the
      velocity. */
  const Deltas4: seq<(int, int)> := [(0, -1), (0, 1), (-1, 0), (1, 0), (0, 0)]

  /** The state reached with the new velocity `nv`: the position moves by `nv` and the
      velocity becomes `nv`. */
  function Next4(s: State4, nv: (int, int)): State4 {
    State4(s.x + nv.0, s.y + nv.1, nv.0, nv.1)
  }

  function NewVelocity(s: State4, d: (int, int)): (int, int) {
    (s.vx + d.0, s.vy + d.1)
  }

  /** Whether `Maze4D.get_neighbors` keeps the acceleration `d` from `s`: the new velocity
      respects the speed limit and `check_hit` finds nothing along it. */
  predicate Accepts4(m4: Maze4, s: State4, d: (int, int))
    requires WellFormed(m4.maze)
  {
    var nv := NewVelocity(s, d);
    && 0 <= nv.0 <= m4.maxVel && 0 <= nv.1 <= m4.maxVel
    && Clear(m4.maze, Pos(s.x, s.y), nv)
  }

  /** The indices `Maze4D.get_neighbors` collects from `s` over the accelerations `ds`, in
      order. */
  function Successors4(m4: Maze4, s: State4, ds: seq<(int, int)>): seq<int>
    requires WellFormed(m4.maze)
  {
    if ds == [] then []
    else
      var d := ds[|ds| - 1];
      Successors4(m4, s, ds[..|ds| - 1])
        + (if Accepts4(m4, s, d) then [Index4(m4, Next4(s, NewVelocity(s, d)))] else [])
  }

  /** `Maze4D.get_neighbors`. */
  method GetNeighbors4(m4: Maze4, stateId: int) returns (neighbors: seq<int>)
    requires WellFormed(m4.maze)
    ensures neighbors == Successors4(m4, State4Of(m4, stateId), Deltas4)
  {
    var state := State4Of(m4, stateId);
    var deltas := Deltas4;
    neighbors := [];
    for j := 0 to |deltas|
      invariant neighbors == Successors4(m4, state, deltas[..j])
    {
      Successors4Step(m4, state, deltas, j);
      var newDelta := (state.vx + deltas[j].0, state.vy + deltas[j].1);
      assert newDelta == NewVelocity(state, deltas[j]);
      if newDelta.0 > m4.maxVel || newDelta.1 > m4.maxVel || newDelta.0 < 0 || newDelta.1 < 0 {
        assert !Accepts4(m4, state, deltas[j]);
        continue;
      }
      var hit := CheckHit(m4.maze, Pos(state.x, state.y), newDelta);
      assert Accepts4(m4, state, deltas[j]) == !hit;
      if !hit {
        var newState := State4(state.x + newDelta.0, state.y + newDelta.1, newDelta.0, newDelta.1);
        assert newState == Next4(state, newDelta);
        neighbors := neighbors + [Index4(m4, newState)];
      }
    }
    assert deltas[..|deltas|] == deltas;
  }

  /** One more acceleration appends its successor, if it is kept, to those before it. */
  lemma Successors4Step(m4: Maze4, s: State4, ds: seq<(int, int)>, j: int)
    requires WellFormed(m4.maze) && 0 <= j < |ds|
    ensures Successors4(m4, s, ds[..j + 1]) == Successors4(m4, s, ds[..j])
      + (if Accepts4(m4, s, ds[j]) then [Index4(m4, Next4(s, NewVelocity(s, ds[j])))] else [])
  {
    assert ds[..j + 1][..j] == ds[..j];
  }

  /** The successors over `ds` are exactly the indices of the accelerations kept, at most
      one per acceleration. */
  lemma {:induction false} Successors4Members(m4: Maze4, s: State4, ds: seq<(int, int)>)
    requires WellFormed(m4.maze)
    ensures |Successors4(m4, s, ds)| <= |ds|
    ensures forall n :: n in Successors4(m4, s, ds) <==>
      exists j :: 0 <= j < |ds| && Accepts4(m4, s, ds[j]) && n == Index4(m4, Next4(s, NewVelocity(s, ds[j])))
    decreases |ds|
  {
    if ds != [] {
      var ds' := ds[..|ds| - 1];
      Successors4Members(m4, s, ds');
      forall n
        ensures n in Successors4(m4, s, ds) <==>
          exists j :: 0 <= j < |ds| && Accepts4(m4, s, ds[j]) && n == Index4(m4, Next4(s, NewVelocity(s, ds[j])))
      {
        if n in Successors4(m4, s, ds) && n !in Successors4(m4, s, ds') {
          var j := |ds| - 1;
          assert Accepts4(m4, s, ds[j]) && n == Index4(m4, Next4(s, NewVelocity(s, ds[j])));
        }
        if exists j :: 0 <= j < |ds| && Accepts4(m4, s, ds[j]) && n == Index4(m4, Next4(s, NewVelocity(s, ds[j]))) {
          var j :| 0 <= j < |ds| && Accepts4(m4, s, ds[j]) && n == Index4(m4, Next4(s, NewVelocity(s, ds[j])));
          if j < |ds| - 1 {
            assert ds'[j] == ds[j];
          }
        }
      }
    }
  }

  /** What makes `n` a successor of `s` in a `Maze4D`: `n` is in range and decodes to a
      state within the speed limit whose velocity differs from that of `s` by one of the
      five accelerations, whose position is that of `s` moved by its velocity, and whose
      move `check_hit` lets through. */
  predicate IsNeighbor4(m4: Maze4, s: State4, n: int)
    requires WellFormed(m4.maze)
  {
    var t := State4Of(m4, n);
    && 0 <= n < MapSize(m4)
    && ValidState4(m4, t)
    && (t.vx - s.vx, t.vy - s.vy) in Deltas4
    && t.x == s.x + t.vx && t.y == s.y + t.vy
    && Clear(m4.maze, Pos(s.x, s.y), (t.vx, t.vy))
  }

  lemma Neighbor4Sound(m4: Maze4, s: State4, j: int)
    requires WellFormed(m4.maze) && 0 <= j < |Deltas4| && Accepts4(m4, s, Deltas4[j])
    ensures IsNeighbor4(m4, s, Index4(m4, Next4(s, NewVelocity(s, Deltas4[j]))))
    ensures FreeCell(m4.maze, Pos(State4Of(m4, Index4(m4, Next4(s, NewVelocity(s, Deltas4[j])))).x,
                                  State4Of(m4, Index4(m4, Next4(s, NewVelocity(s, Deltas4[j])))).y))
  {
    var nv := NewVelocity(s, Deltas4[j]);
    var t := Next4(s, nv);
    ClearEndpoint(m4.maze, Pos(s.x, s.y), nv);
    assert Moved(Pos(s.x, s.y), nv) == Pos(t.x, t.y);
    State4OfIndex4(m4, t);
    Index4Bounds(m4, t);
  }

  lemma Neighbor4Complete(m4: Maze4, s: State4, n: int)
    requires WellFormed(m4.maze) && IsNeighbor4(m4, s, n)
    ensures exists j ::
      0 <= j < |Deltas4| && Accepts4(m4, s, Deltas4[j]) && n == Index4(m4, Next4(s, NewVelocity(s, Deltas4[j])))
  {
    var t := State4Of(m4, n);
    Index4OfState4(m4, n);
    var d := (t.vx - s.vx, t.vy - s.vy);
    var j :| 0 <= j < |Deltas4| && Deltas4[j] == d;
    assert NewVelocity(s, d) == (t.vx, t.vy);
    assert Next4(s, NewVelocity(s, d)) == t;
  }

  /** `Maze4D.get_neighbors` returns at most five indices; an index is among them exactly
      when it satisfies IsNeighbor4, and every one of them decodes to a free cell. */
  lemma Neighbors4Correct(m4: Maze4, stateId: int)
    requires WellFormed(m4.maze)
    ensures var s := State4Of(m4, stateId);
      var ns := Successors4(m4, s, Deltas4);
      && |ns| <= 5
      && (forall n :: n in ns <==> IsNeighbor4(m4, s, n))
      && (forall n :: n in ns ==> FreeCell(m4.maze, Pos(State4Of(m4, n).x, State4Of(m4, n).y)))
  {
    var s := State4Of(m4, stateId);
    Successors4Members(m4, s, Deltas4);
    forall n | n in Successors4(m4, s, Deltas4)
      ensures IsNeighbor4(m4, s, n)
      ensures FreeCell(m4.maze, Pos(State4Of(m4, n).x, State4Of(m4, n).y))
    {
      var j :| 0 <= j < |Deltas4| && Accepts4(m4, s, Deltas4[j])
        && n == Index4(m4, Next4(s, NewVelocity(s, Deltas4[j])));
      Neighbor4Sound(m4, s, j);
    }
    forall n | IsNeighbor4(m4, s, n)
      ensures n in Successors4(m4, s, Deltas4)
    {
      Neighbor4Complete(m4, s, n);
    }
  }
}
