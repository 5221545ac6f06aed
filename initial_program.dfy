/** The first version's drawing canvas: a `width x height` pixel buffer
    addressed `[x, y]`, written only through the bounds-checked
    `SetPixel`, so no drawing call can fault. */
module InitialProgram {
  import opened Pixels
  import Bresenham
  import Midpoint

  class Canvas {
    var width: int
    var height: int
    var bgColor: Color
    var edgeList: seq<Edge>
    /** The pixel buffer, `pixels[x, y]` being column x of row y. */
    var pixels: array2<Color>

    /** The buffer has one cell per in-range address. */
    ghost predicate Valid()
      reads this
    {
      pixels.Length0 == RangeLen(width) && pixels.Length1 == RangeLen(height)
    }

    /** A `width x height` buffer filled with the background colour, and no
        edges. */
    constructor (width: int, height: int, bgColor: Color := White)
      ensures Valid() && fresh(pixels)
      ensures this.width == width && this.height == height && this.bgColor == bgColor
      ensures edgeList == []
      ensures forall x, y :: 0 <= x < pixels.Length0 && 0 <= y < pixels.Length1 ==> pixels[x, y] == bgColor
    {
      this.width := width;
      this.height := height;
      this.bgColor := bgColor;
      edgeList := [];
      pixels := new Color[RangeLen(width), RangeLen(height)]((x, y) => bgColor);
    }

    /** Writes `color` at (x, y) when that address is in bounds and does
        nothing otherwise. */
    method SetPixel(x: int, y: int, color: Color := Black)
      requires Valid()
      modifies pixels
      ensures forall i, j {:trigger pixels[i, j]} :: 0 <= i < pixels.Length0 && 0 <= j < pixels.Length1 ==>
        pixels[i, j] == if i == x && j == y then color else old(pixels[i, j])
    {
      if x >= 0 && x < width && y >= 0 && y < height {
        pixels[x, y] := color;
      }
    }

    /** Bresenham's line from (x0, y0) to (x1, y1), every cell through
        `SetPixel`: the cells of `Bresenham.LinePath` that are in bounds
        are painted and nothing else changes. The ghost `trace` lists the
        addresses passed to `SetPixel`, in order. */
    method DrawLine(x0: int, y0: int, x1: int, y1: int, color: Color := Black) returns (ghost trace: seq<Point>)
      requires Valid()
      modifies pixels
      ensures trace == Bresenham.LinePath(x0, y0, x1, y1)
      ensures forall i, j {:trigger pixels[i, j]} :: 0 <= i < pixels.Length0 && 0 <= j < pixels.Length1 ==>
        pixels[i, j] == if Point(i, j) in trace then color else old(pixels[i, j])
    {
      var x, y := x0, y0;
      var dx: int := Abs(x1 - x0);
      var dy: int := Abs(y1 - y0);
      var sx := if x0 < x1 then 1 else -1;
      var sy := if y0 < y1 then 1 else -1;
      var err := dx - dy;
      ghost var whole := Bresenham.LinePath(x0, y0, x1, y1);
      ghost var cursors := Bresenham.Cursors(x0, y0, x1, y1);
      ghost var k := 0;
      while true
        invariant 0 <= k < |cursors|
        invariant cursors[k].x == x && cursors[k].y == y && cursors[k].err == err
        invariant forall i, j {:trigger pixels[i, j]} :: 0 <= i < pixels.Length0 && 0 <= j < pixels.Length1 ==>
          pixels[i, j] == if Point(i, j) in whole[..k] then color else old(pixels[i, j])
        decreases |cursors| - k
      {
        Bresenham.CursorsFacts(x0, y0, x1, y1, k);
        SetPixel(x, y, color);
        assert whole[..k + 1] == whole[..k] + [Point(x, y)];
        if x == x1 && y == y1 {
          assert whole[..k + 1] == whole;
          break;
        }
        Bresenham.CursorsNext(x0, y0, x1, y1, k);
        var e2 := 2 * err;
        if e2 > -dy {
          err := err - dy;
          x := x + sx;
        }
        if e2 < dx {
          err := err + dx;
          y := y + sy;
        }
        k := k + 1;
      }
      trace := whole;
    }

    /** The eight `set_pixel` calls of one turn of the circle loop: the
        reflections of `o` around (xc, yc) that are in bounds are painted. */
    method SetEight(xc: int, yc: int, o: Midpoint.Offset, color: Color)
      requires Valid()
      modifies pixels
      ensures forall i, j {:trigger pixels[i, j]} :: 0 <= i < pixels.Length0 && 0 <= j < pixels.Length1 ==>
        pixels[i, j] == if Midpoint.Offset(i - xc, j - yc) in Midpoint.Reflections(o) then color else old(pixels[i, j])
    {
      var x, y := o.dx, o.dy;
      SetPixel(xc + x, yc + y, color);
      SetPixel(xc + y, yc + x, color);
      SetPixel(xc - y, yc + x, color);
      SetPixel(xc - x, yc + y, color);
      SetPixel(xc - x, yc - y, color);
      SetPixel(xc - y, yc - x, color);
      SetPixel(xc + y, yc - x, color);
      SetPixel(xc + x, yc - y, color);
    }

    /** The midpoint circle around (xc, yc), every cell through `SetPixel`:
        the cells at the offsets of `Midpoint.CircleOffsets(r)` that are in
        bounds are painted and nothing else changes. */
    method DrawCircle(xc: int, yc: int, r: int, color: Color := Black)
      requires Valid()
      modifies pixels
      ensures forall i, j {:trigger pixels[i, j]} :: 0 <= i < pixels.Length0 && 0 <= j < pixels.Length1 ==>
        pixels[i, j] == if Midpoint.Offset(i - xc, j - yc) in Midpoint.CircleOffsets(r) then color else old(pixels[i, j])
    {
      var x := r;
      var y := 0;
      var err := 0;
      ghost var done: set<Midpoint.Offset> := {};
      while x >= y
        invariant Midpoint.Sweep(x, y, err) == Midpoint.SweepAt(r, y)
        invariant y <= |Midpoint.Octant(r)|
        invariant done == Midpoint.Drawn(r, y)
        invariant forall i, j {:trigger pixels[i, j]} :: 0 <= i < pixels.Length0 && 0 <= j < pixels.Length1 ==>
          pixels[i, j] == if Midpoint.Offset(i - xc, j - yc) in done then color else old(pixels[i, j])
        decreases x - y + 1
      {
        Midpoint.OctantStep(r, y);
        SetEight(xc, yc, Midpoint.Offset(x, y), color);
        done := done + Midpoint.Reflections(Midpoint.Offset(x, y));
        ghost var sw := Midpoint.Sweep(x, y, err);
        y := y + 1;
        err := err + 1 + 2 * y;
        if 2 * (err - x) + 1 > 0 {
          x := x - 1;
          err := err + 1 - 2 * x;
        }
        assert Midpoint.Sweep(x, y, err) == Midpoint.Advance(sw);
      }
      Midpoint.CircleDrawn(r, y);
    }
  }
}
