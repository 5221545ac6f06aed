/** The final version's drawing engine: a `height x width` canvas of colours
    written in place, an append-only list of points and of edges, and the
    current colour. */
module FinalProgram {
  import opened Pixels
  import Bresenham
  import Midpoint

  /** One assignment `grid[p.y][p.x] = color` on a list of rows, for a cell
      on the grid. The other branch only makes the function total: `Plot`
      requires the cell to be on the grid, so no drawing method reaches it
      (the source would raise an index error there, or wrap a negative
      index). */
  function Write(grid: seq<seq<Color>>, p: Point, color: Color): seq<seq<Color>> {
    if 0 <= p.y < |grid| && 0 <= p.x < |grid[p.y]| then grid[p.y := grid[p.y][p.x := color]] else grid
  }

  /** One write keeps the shape of the grid, gives its cell the colour and
      leaves every other cell as it was. */
  lemma WriteCell(grid: seq<seq<Color>>, p: Point, color: Color)
    ensures var g := Write(grid, p, color);
      && |g| == |grid|
      && (forall row :: 0 <= row < |grid| ==> |g[row]| == |grid[row]|)
      && (0 <= p.y < |grid| && 0 <= p.x < |grid[p.y]| ==> g[p.y][p.x] == color)
      && forall row, col :: 0 <= row < |grid| && 0 <= col < |grid[row]| && (row != p.y || col != p.x) ==>
           g[row][col] == grid[row][col]
  {
  }

  /** `grid` after the first `n` writes of `color` listed in `writes`, in order. */
  function Paint(grid: seq<seq<Color>>, writes: seq<Point>, n: nat, color: Color): seq<seq<Color>>
    requires n <= |writes|
  {
    if n == 0 then grid else Write(Paint(grid, writes, n - 1, color), writes[n - 1], color)
  }

  /** `grid` after all the writes of `color` listed in `writes`. */
  function Painted(grid: seq<seq<Color>>, writes: seq<Point>, color: Color): seq<seq<Color>> {
    Paint(grid, writes, |writes|, color)
  }

  /** Painting keeps the shape of the grid. */
  lemma {:induction false} PaintShape(grid: seq<seq<Color>>, writes: seq<Point>, n: nat, color: Color)
    requires n <= |writes|
    ensures |Paint(grid, writes, n, color)| == |grid|
    ensures forall row :: 0 <= row < |grid| ==> |Paint(grid, writes, n, color)[row]| == |grid[row]|
  {
    if n > 0 {
      PaintShape(grid, writes, n - 1, color);
    }
  }

  /** Painting sets exactly the listed cells of the grid to `color` and
      leaves every other cell as it was; cells listed twice or off the grid
      make no difference. */
  lemma {:induction false} PaintCells(grid: seq<seq<Color>>, writes: seq<Point>, n: nat, color: Color)
    requires n <= |writes|
    ensures |Paint(grid, writes, n, color)| == |grid|
    ensures forall row :: 0 <= row < |grid| ==> |Paint(grid, writes, n, color)[row]| == |grid[row]|
    ensures forall row, col :: 0 <= row < |grid| && 0 <= col < |grid[row]| ==>
      Paint(grid, writes, n, color)[row][col] == if Point(col, row) in writes[..n] then color else grid[row][col]
  {
    if n > 0 {
      PaintCells(grid, writes, n - 1, color);
      PaintShape(grid, writes, n - 1, color);
      assert writes[..n] == writes[..n - 1] + [writes[n - 1]];
    }
  }

  /** The canvas after all the writes is the grid with exactly the listed
      cells painted. */
  lemma PaintedCells(grid: seq<seq<Color>>, writes: seq<Point>, color: Color)
    ensures |Painted(grid, writes, color)| == |grid|
    ensures forall row :: 0 <= row < |grid| ==> |Painted(grid, writes, color)[row]| == |grid[row]|
    ensures forall row, col :: 0 <= row < |grid| && 0 <= col < |grid[row]| ==>
      Painted(grid, writes, color)[row][col] == if Point(col, row) in writes then color else grid[row][col]
  {
    PaintCells(grid, writes, |writes|, color);
    assert writes[..|writes|] == writes;
  }

  /** The canvas `DrawLine` leaves: exactly the cells of the Bresenham path
      are painted, both endpoints among them. */
  lemma LineCanvas(grid: seq<seq<Color>>, start: Point, stop: Point, color: Color)
    requires 0 <= start.y < |grid| && 0 <= start.x < |grid[start.y]|
    requires 0 <= stop.y < |grid| && 0 <= stop.x < |grid[stop.y]|
    ensures var g := Painted(grid, Bresenham.LinePath(start.x, start.y, stop.x, stop.y), color);
      && |g| == |grid|
      && (forall row :: 0 <= row < |grid| ==> |g[row]| == |grid[row]|)
      && (forall row, col :: 0 <= row < |grid| && 0 <= col < |grid[row]| ==>
           g[row][col] == if Point(col, row) in Bresenham.LinePath(start.x, start.y, stop.x, stop.y) then color else grid[row][col])
      && g[start.y][start.x] == color && g[stop.y][stop.x] == color
  {
    var path := Bresenham.LinePath(start.x, start.y, stop.x, stop.y);
    PaintedCells(grid, path, color);
    assert path[0] == start && path[|path| - 1] == stop;
  }

  /** The canvas `DrawCircle` leaves: exactly the cells whose offset from
      the center is in `Midpoint.CircleOffsets(r)` are painted, the same
      cells as the initial version's `Canvas.DrawCircle` paints. */
  lemma CircleCanvas(grid: seq<seq<Color>>, center: Point, r: int, color: Color)
    requires r < 0 || (0 <= center.y - r && center.y + r < |grid| &&
      forall row :: 0 <= row < |grid| ==> 0 <= center.x - r && center.x + r < |grid[row]|)
    ensures var g := Painted(grid, Midpoint.CircleWrites(center, r), color);
      && |g| == |grid|
      && (forall row :: 0 <= row < |grid| ==> |g[row]| == |grid[row]|)
      && forall row, col :: 0 <= row < |grid| && 0 <= col < |grid[row]| ==>
           g[row][col] == if Midpoint.Offset(col - center.x, row - center.y) in Midpoint.CircleOffsets(r) then color else grid[row][col]
  {
    var writes := Midpoint.CircleWrites(center, r);
    PaintedCells(grid, writes, color);
    forall row, col | 0 <= row < |grid| && 0 <= col < |grid[row]|
      ensures Point(col, row) in writes <==> Midpoint.Offset(col - center.x, row - center.y) in Midpoint.CircleOffsets(r)
    {
      Midpoint.CircleWritesMember(center, r, Point(col, row));
    }
  }

  class GraphicsEngine {
    var width: int
    var height: int
    /** A list of rows; `canvas[y][x]` is the cell at column x, row y. */
    var canvas: seq<seq<Color>>
    var points: seq<Point>
    var edges: seq<Edge>
    /** Absent until the first `SetColor`: the constructor never assigns it. */
    var currentColor: Option<Color>

    /** The canvas keeps the shape the constructor gave it. */
    ghost predicate Valid()
      reads this
    {
      && |canvas| == RangeLen(height)
      && forall row :: 0 <= row < |canvas| ==> |canvas[row]| == RangeLen(width)
    }

    /** `canvas[y][x]` can be written without an index error and without a
        negative index wrapping around to the other side (on a `Valid`
        canvas, whose shape is fixed by `width` and `height`). */
    predicate InCanvas(x: int, y: int)
      reads this
    {
      0 <= x < width && 0 <= y < height
    }

    /** `height` rows of `width` black cells, no points, no edges. */
    constructor (width: int, height: int)
      ensures Valid()
      ensures this.width == width && this.height == height
      ensures canvas == seq(RangeLen(height), _ => seq(RangeLen(width), _ => Black))
      ensures points == [] && edges == [] && currentColor == None
    {
      this.width := width;
      this.height := height;
      canvas := seq(RangeLen(height), _ => seq(RangeLen(width), _ => Black));
      points := [];
      edges := [];
      currentColor := None;
    }

    method SetColor(color: Color)
      modifies this`currentColor
      ensures currentColor == Some(color)
      ensures canvas == old(canvas) && points == old(points) && edges == old(edges)
    {
      currentColor := Some(color);
    }

    method AddPoint(x: int, y: int)
      modifies this`points
      ensures points == old(points) + [Point(x, y)]
      ensures canvas == old(canvas) && edges == old(edges) && currentColor == old(currentColor)
    {
      points := points + [Point(x, y)];
    }

    method AddEdge(start: Point, stop: Point)
      modifies this`edges
      ensures edges == old(edges) + [Edge(start, stop)]
      ensures canvas == old(canvas) && points == old(points) && currentColor == old(currentColor)
    {
      edges := edges + [Edge(start, stop)];
    }

    /** `canvas[y][x] = color` for the next listed write, on a canvas that
        so far is `orig` after the first `n` listed writes and for a cell
        of `orig`, whose rows have `cols` cells. */
    method Plot(x: int, y: int, color: Color,
                ghost orig: seq<seq<Color>>, ghost cols: int, ghost writes: seq<Point>, ghost n: nat)
      requires forall row :: 0 <= row < |orig| ==> |orig[row]| == cols
      requires 0 <= y < |orig| && 0 <= x < cols
      requires n < |writes| && writes[n] == Point(x, y)
      requires canvas == Paint(orig, writes, n, color)
      modifies this`canvas
      ensures canvas == Paint(orig, writes, n + 1, color)
    {
      PaintShape(orig, writes, n, color);
      canvas := canvas[y := canvas[y][x := color]];
    }

    /** A cell between two cells of the canvas, coordinate by coordinate, is
        in the canvas too. */
    lemma InCanvasBetween(a: Point, b: Point, p: Point)
      requires InCanvas(a.x, a.y) && InCanvas(b.x, b.y)
      requires Between(a.x, p.x, b.x) && Between(a.y, p.y, b.y)
      ensures InCanvas(p.x, p.y)
    {
    }

    /** Bresenham's line from `start` to `stop`. Every write indexes the
        canvas directly, so both endpoints must be on it (then, by
        `Bresenham.LineHugsSegment`, so is every cell in between). The
        ghost `trace` lists the written cells in the order written. */
    method DrawLine(start: Point, stop: Point, color: Color) returns (ghost trace: seq<Point>)
      requires Valid()
      requires InCanvas(start.x, start.y) && InCanvas(stop.x, stop.y)
      modifies this`canvas
      ensures Valid()
      ensures trace == Bresenham.LinePath(start.x, start.y, stop.x, stop.y)
      ensures canvas == Painted(old(canvas), trace, color)
    {
      var x1, y1 := start.x, start.y;
      var x2, y2 := stop.x, stop.y;
      var dx: int := Abs(x2 - x1);
      var dy: int := Abs(y2 - y1);
      var sx := if x1 < x2 then 1 else -1;
      var sy := if y1 < y2 then 1 else -1;
      var err := dx - dy;
      ghost var orig, cols := canvas, RangeLen(width);
      ghost var whole := Bresenham.LinePath(x1, y1, x2, y2);
      ghost var cursors := Bresenham.Cursors(x1, y1, x2, y2);
      ghost var k := 0;
      while x1 != x2 || y1 != y2
        invariant 0 <= k < |cursors|
        invariant cursors[k].x == x1 && cursors[k].y == y1 && cursors[k].err == err
        invariant canvas == Paint(orig, whole, k, color)
        decreases |cursors| - k
      {
        Bresenham.CursorsFacts(start.x, start.y, x2, y2, k);
        Bresenham.CursorsNext(start.x, start.y, x2, y2, k);
        InCanvasBetween(start, stop, Point(x1, y1));
        Plot(x1, y1, color, orig, cols, whole, k);
        var e2 := 2 * err;
        if e2 > -dy {
          err := err - dy;
          x1 := x1 + sx;
        }
        if e2 < dx {
          err := err + dx;
          y1 := y1 + sy;
        }
        k := k + 1;
      }
      Bresenham.CursorsFacts(start.x, start.y, x2, y2, k);
      InCanvasBetween(start, stop, Point(x1, y1));
      Plot(x1, y1, color, orig, cols, whole, k);
      PaintShape(orig, whole, k + 1, color);
      trace := whole;
    }

    /** The eight writes of one turn of the circle loop, listed as writes
        `n` to `n + 7`: the reflections of `o` around `center`, which lie
        in the square of half-side `o.dx`, inside `orig` whose rows have
        `cols` cells. */
    method PlotEight(center: Point, o: Midpoint.Offset, color: Color,
                     ghost orig: seq<seq<Color>>, ghost cols: int, ghost writes: seq<Point>, ghost n: nat)
      requires forall row :: 0 <= row < |orig| ==> |orig[row]| == cols
      requires 0 <= o.dy <= o.dx
      requires 0 <= center.x - o.dx && center.x + o.dx < cols
      requires 0 <= center.y - o.dx && center.y + o.dx < |orig|
      requires n + 8 <= |writes| && forall i :: 0 <= i < 8 ==> writes[n + i] == Midpoint.Reflected(center, o)[i]
      requires canvas == Paint(orig, writes, n, color)
      modifies this`canvas
      ensures canvas == Paint(orig, writes, n + 8, color)
    {
      var x0, y0, x, y := center.x, center.y, o.dx, o.dy;
      ghost var eight := Midpoint.Reflected(center, o);
      assert writes[n] == eight[0] && writes[n + 1] == eight[1] && writes[n + 2] == eight[2] && writes[n + 3] == eight[3];
      assert writes[n + 4] == eight[4] && writes[n + 5] == eight[5] && writes[n + 6] == eight[6] && writes[n + 7] == eight[7];
      Plot(x0 + x, y0 + y, color, orig, cols, writes, n);
      Plot(x0 + y, y0 + x, color, orig, cols, writes, n + 1);
      Plot(x0 + y, y0 - x, color, orig, cols, writes, n + 2);
      Plot(x0 + x, y0 - y, color, orig, cols, writes, n + 3);
      Plot(x0 - x, y0 - y, color, orig, cols, writes, n + 4);
      Plot(x0 - y, y0 - x, color, orig, cols, writes, n + 5);
      Plot(x0 - y, y0 + x, color, orig, cols, writes, n + 6);
      Plot(x0 - x, y0 + y, color, orig, cols, writes, n + 7);
    }

    /** The midpoint circle around `center`. For a negative radius the loop
        never runs; otherwise the four axis cells at distance `radius` are
        always written, so the square they span must lie on the canvas. The
        ghost `writes` lists the written cells in the order written. */
    method DrawCircle(center: Point, radius: int, color: Color) returns (ghost writes: seq<Point>)
      requires Valid()
      requires radius < 0 ||
        (InCanvas(center.x - radius, center.y - radius) && InCanvas(center.x + radius, center.y + radius))
      modifies this`canvas
      ensures Valid()
      ensures writes == Midpoint.CircleWrites(center, radius)
      ensures canvas == Painted(old(canvas), writes, color)
    {
      var x0, y0 := center.x, center.y;
      var x := radius;
      var y := 0;
      var err := 0;
      ghost var orig, cols := canvas, RangeLen(width);
      assert radius >= 0 ==> 0 <= x0 - radius && x0 + radius < cols && 0 <= y0 - radius && y0 + radius < |orig|;
      ghost var arc := Midpoint.Octant(radius);
      ghost var all := Midpoint.CircleWrites(center, radius);
      ghost var n := 0;
      while x >= y
        invariant Midpoint.Sweep(x, y, err) == Midpoint.SweepAt(radius, y)
        invariant y <= |arc| && x <= radius
        invariant n == 8 * y && n <= |all|
        invariant canvas == Paint(orig, all, n, color)
        decreases x - y + 1
      {
        Midpoint.CircleWritesAt(center, radius, y, all, n, Midpoint.Offset(x, y));
        PlotEight(center, Midpoint.Offset(x, y), color, orig, cols, all, n);
        ghost var sw := Midpoint.Sweep(x, y, err);
        y := y + 1;
        err := err + 1 + 2 * y;
        if 2 * (err - x) + 1 > 0 {
          x := x - 1;
          err := err + 1 - 2 * x;
        }
        n := n + 8;
        assert Midpoint.Sweep(x, y, err) == Midpoint.Advance(sw);
      }
      Midpoint.OctantStep(radius, y);
      PaintShape(orig, all, |all|, color);
      writes := all;
    }
  }
}
