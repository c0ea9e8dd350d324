/** `scripts/env.py`: the obstacle set of the 2D grid world, built from axis-aligned
    segments and rectangle borders. */
module Environment {
  /** A grid cell `(x, y)`. */
  type Cell = (int, int)

  /** The eight-connected motion set both stored worlds install as `motions`. */
  const Motions8: seq<Cell> := [(-1, 0), (-1, 1), (0, 1), (1, 1), (1, 0), (1, -1), (0, -1), (-1, -1)]

  function Min(a: int, b: int): int {
    if a < b then a else b
  }

  function Max(a: int, b: int): int {
    if a < b then b else a
  }

  /** The cells of column `x` with `lo <= y < hi`. */
  function Column(x: int, lo: int, hi: int): set<Cell> {
    set y | lo <= y < hi :: (x, y)
  }

  /** The cells of row `y` with `lo <= x < hi`. */
  function Row(y: int, lo: int, hi: int): set<Cell> {
    set x | lo <= x < hi :: (x, y)
  }

  /** The cells `add_line(p, q)` adds. The endpoints are normalised with `min`/`max`; equal
      x coordinates give the column between the two y's, otherwise the row at the smaller
      y between the two x's (whatever the y's are). */
  function LineCells(p: Cell, q: Cell): set<Cell> {
    var minX, maxX := Min(p.0, q.0), Max(p.0, q.0);
    var minY, maxY := Min(p.1, q.1), Max(p.1, q.1);
    if minX == maxX then Column(minX, minY, maxY + 1) else Row(minY, minX, maxX + 1)
  }

  /** Swapping the endpoints of a segment adds the same cells. */
  lemma LineSymmetric(p: Cell, q: Cell)
    ensures LineCells(p, q) == LineCells(q, p)
  {
    assert Min(p.0, q.0) == Min(q.0, p.0) && Max(p.0, q.0) == Max(q.0, p.0);
    assert Min(p.1, q.1) == Min(q.1, p.1) && Max(p.1, q.1) == Max(q.1, p.1);
  }

  /** A vertical segment is every cell of its column between the endpoints, inclusive. */
  lemma VerticalLine(p: Cell, q: Cell)
    requires p.0 == q.0
    ensures forall c: Cell :: c in LineCells(p, q) <==> c.0 == p.0 && Min(p.1, q.1) <= c.1 <= Max(p.1, q.1)
  {
    forall c: Cell | c.0 == p.0 && Min(p.1, q.1) <= c.1 <= Max(p.1, q.1)
      ensures c in LineCells(p, q)
    {
      assert c == (p.0, c.1);
    }
  }

  /** Any other segment is the row at the smaller y between the x's, inclusive. */
  lemma HorizontalLine(p: Cell, q: Cell)
    requires p.0 != q.0
    ensures forall c: Cell :: c in LineCells(p, q) <==> c.1 == Min(p.1, q.1) && Min(p.0, q.0) <= c.0 <= Max(p.0, q.0)
  {
    forall c: Cell | c.1 == Min(p.1, q.1) && Min(p.0, q.0) <= c.0 <= Max(p.0, q.0)
      ensures c in LineCells(p, q)
    {
      assert c == (c.0, Min(p.1, q.1));
    }
  }

  /** The four segments `add_rectangle(a, b)` draws. */
  function RectangleCells(a: Cell, b: Cell): set<Cell> {
    LineCells(a, (b.0, a.1)) + LineCells(a, (a.0, b.1)) + LineCells(b, (a.0, b.1)) + LineCells(b, (b.0, a.1))
  }

  /** A cell on the border of the box with corners `a` and `b`. */
  predicate OnBorder(a: Cell, b: Cell, c: Cell) {
    var minX, maxX := Min(a.0, b.0), Max(a.0, b.0);
    var minY, maxY := Min(a.1, b.1), Max(a.1, b.1);
    && minX <= c.0 <= maxX && minY <= c.1 <= maxY
    && (c.0 == minX || c.0 == maxX || c.1 == minY || c.1 == maxY)
  }

  /** `add_rectangle` draws exactly the border of the box between its corners, for any
      two corners, flat boxes included. */
  lemma RectangleIsBorder(a: Cell, b: Cell)
    ensures forall c: Cell :: c in RectangleCells(a, b) <==> OnBorder(a, b, c)
  {
    var p1, p2 := (b.0, a.1), (a.0, b.1);
    SegmentCells(a, p1);
    SegmentCells(a, p2);
    SegmentCells(b, p2);
    SegmentCells(b, p1);
  }

  /** The cells of a segment whose endpoints share a coordinate, whichever one it is. */
  lemma SegmentCells(p: Cell, q: Cell)
    requires p.0 == q.0 || p.1 == q.1
    ensures forall c: Cell :: c in LineCells(p, q) <==>
      && Min(p.0, q.0) <= c.0 <= Max(p.0, q.0)
      && Min(p.1, q.1) <= c.1 <= Max(p.1, q.1)
  {
    if p.0 == q.0 {
      VerticalLine(p, q);
    } else {
      HorizontalLine(p, q);
    }
  }

  /** `Env`: the extent of the world and its obstacle cells. */
  class Env {
    var xRange: int
    var yRange: int
    var obs: set<Cell>

    /** `Env(world_id)` for a world without a stored layout: the default 80 by 60 extent
        and no obstacles. */
    constructor ()
      ensures xRange == 80 && yRange == 60 && obs == {}
    {
      xRange, yRange, obs := 80, 60, {};
    }

    /** `set_obsmap`: the obstacle set becomes `o`. */
    method SetObsmap(o: set<Cell>)
      modifies this
      ensures obs == o && xRange == old(xRange) && yRange == old(yRange)
    {
      obs := o;
    }

    /** `get_obsmap`: the current obstacle set, the one last given to `set_obsmap` unless
        lines were drawn since. */
    method GetObsmap() returns (o: set<Cell>)
      ensures o == obs
    {
      o := obs;
    }

    /** `add_line`: add the cells of the segment from `p` to `q`; nothing is removed. */
    method AddLine(p: Cell, q: Cell)
      modifies this
      ensures obs == old(obs) + LineCells(p, q)
      ensures xRange == old(xRange) && yRange == old(yRange)
    {
      var minX := Min(p.0, q.0);
      var maxX := Max(p.0, q.0);
      var minY := Min(p.1, q.1);
      var maxY := Max(p.1, q.1);
      if minX == maxX {
        for y := minY to maxY + 1
          invariant obs == old(obs) + Column(minX, minY, y)
          invariant xRange == old(xRange) && yRange == old(yRange)
        {
          ColumnGrows(minX, minY, y);
          obs := obs + {(minX, y)};
        }
      } else {
        for x := minX to maxX + 1
          invariant obs == old(obs) + Row(minY, minX, x)
          invariant xRange == old(xRange) && yRange == old(yRange)
        {
          RowGrows(minY, minX, x);
          obs := obs + {(x, minY)};
        }
      }
    }

    /** `add_rectangle`: the four segments of the border between the corners `a` and `b`. */
    method AddRectangle(a: Cell, b: Cell)
      modifies this
      ensures obs == old(obs) + RectangleCells(a, b)
      ensures xRange == old(xRange) && yRange == old(yRange)
    {
      AddLine(a, (b.0, a.1));
      AddLine(a, (a.0, b.1));
      AddLine(b, (a.0, b.1));
      AddLine(b, (b.0, a.1));
    }
  }

  lemma ColumnGrows(x: int, lo: int, y: int)
    requires lo <= y
    ensures Column(x, lo, y + 1) == Column(x, lo, y) + {(x, y)}
  {
  }

  lemma RowGrows(y: int, lo: int, x: int)
    requires lo <= x
    ensures Row(y, lo, x + 1) == Row(y, lo, x) + {(x, y)}
  {
  }
}
