# Raster drawing engine, two versions

This project models the raster core of a small Python drawing program in two versions.

**Final version: `GraphicsEngine`.** It keeps four things:
- a `height x width` canvas of RGB colours, stored as a list of rows and written in place;
- an append-only list of points;
- an append-only list of edges;
- a current colour.

It rasterises lines with Bresenham's algorithm and circles with the midpoint algorithm. It writes `canvas[y][x]` directly, with no bounds check.

**Initial version: `Canvas`.** It stores a background colour and an edge list. Every drawing call goes through a bounds-checked `set_pixel` into a `width x height` pixel buffer addressed `[x, y]`.

Both versions run the same two rasterisers. These are modelled once, as pure functions:
- `Bresenham.LinePath` is the ordered list of cells a line paints.
- `Midpoint.CircleOffsets` is the set of offsets from the center that a circle paints.
- `Midpoint.CircleWrites` is the final version's exact write order.

Each drawing method is an imperative loop that mirrors the source's loop, with its invariants, and is proved against these functions:
- Final version, both drawing methods: the new canvas is the old canvas after the listed writes, in order.
- Initial version: stated cell by cell, "a cell has the drawing colour iff it is on the path, else it is unchanged".

Both versions' line methods are proved against `Bresenham.LinePath`, and both circle methods against `Midpoint.CircleOffsets`. So the two versions paint the same cells for the same arguments.

Properties of the rasterisers are proved as lemmas:
- **Line:** paints both endpoints; paints one cell for equal endpoints; 8-connected, monotone steps; never leaves the bounding box; lies within half a pixel of the ideal segment; exact diagonal for equal deltas.
- **Circle:** only the center for radius 0; nothing for a negative radius; closed under the eight symmetries of the square; within the square of half-side r; reaches the four axis points.

**Where the model differs from a plain reading of the program:**
- **Final version, in-range writes:** every cell `draw_line` and `draw_circle` write must be on the canvas. This is the `requires` of `GraphicsEngine.DrawLine` and `GraphicsEngine.DrawCircle`. Off the canvas the source does not simply fail. An index past the end raises `IndexError`. A negative x counts back from the end of its row, and a negative y picks a row counted back from the last one. An index below minus the length raises. None of these cases is modelled.
- **Initial version, pixel buffer:** the constructor (0-program/initial_program.py:5-9) never creates the `pixels` buffer that `set_pixel` writes, and nothing else in lines 1-73 of that file creates it. The model's constructor allocates a `width x height` buffer filled with the background colour.
- **Line direction:** the line is not the same set of cells when its endpoints are swapped. `Bresenham.LineDependsOnDirection` exhibits (0,0)→(2,1) against (2,1)→(0,0).
- **Background colours:** the final version's canvas starts black (0,0,0). The initial version's default background is white.

## Model

| member | source | states |
|---|---|---|
| FinalProgram.GraphicsEngine.constructor | 1-program/final_program.py:5-10 | keeps width and height, builds `height` rows of `width` black cells, empty point and edge lists, no current colour yet |
| FinalProgram.GraphicsEngine.SetColor | 1-program/final_program.py:12-14 | the current colour becomes the given one; canvas, points and edges are unchanged |
| FinalProgram.GraphicsEngine.AddPoint | 1-program/final_program.py:16-17 | the point list is the old list with (x, y) appended; everything else unchanged |
| FinalProgram.GraphicsEngine.AddEdge | 1-program/final_program.py:19-20 | the edge list is the old list with (start, end) appended; everything else unchanged |
| FinalProgram.WriteCell | 1-program/final_program.py:32 | one assignment `canvas[y][x] = color` keeps the grid's shape, gives an on-grid cell the colour and leaves every other cell unchanged |
| FinalProgram.GraphicsEngine.Plot | 1-program/final_program.py:32 | one in-range `canvas[y][x] = color` extends the painted write log by that cell |
| FinalProgram.GraphicsEngine.InCanvasBetween | 1-program/final_program.py:31-40 | a cell between two in-range cells, coordinate by coordinate, is in range, so the line loop never indexes outside the canvas |
| FinalProgram.GraphicsEngine.DrawLine | 1-program/final_program.py:22-40 | the loop terminates; the canvas keeps its shape and becomes the old canvas with the cells of `LinePath(start, end)` painted in that order, the last one after the loop |
| FinalProgram.GraphicsEngine.PlotEight | 1-program/final_program.py:49-56 | the eight writes of one circle iteration extend the write log by the eight reflections of (x, y), in the source's order |
| FinalProgram.GraphicsEngine.DrawCircle | 1-program/final_program.py:42-62 | the loop terminates; the canvas keeps its shape and becomes the old canvas with `CircleWrites(center, radius)` painted in order; a negative radius paints nothing |
| FinalProgram.PaintShape | 1-program/final_program.py:32 | writing cells of a list of rows never changes the number of rows or any row's length |
| FinalProgram.PaintCells | 1-program/final_program.py:32 | after the first n writes, a cell has the colour iff it is among those writes, and otherwise keeps its old colour |
| FinalProgram.PaintedCells | 1-program/final_program.py:32 | after all the writes, a cell has the colour iff it was written, and otherwise keeps its old colour |
| FinalProgram.LineCanvas | 1-program/final_program.py:22-40 | after `draw_line` a cell has the colour iff it is on the Bresenham path, and both endpoints are painted |
| FinalProgram.CircleCanvas | 1-program/final_program.py:42-62 | for a negative radius, or a square of half-side radius around the center that lies on the grid, after `draw_circle` a cell has the colour iff its offset from the center is in `CircleOffsets(radius)`, the same cells the initial version paints |
| InitialProgram.Canvas.constructor | 0-program/initial_program.py:5-9 | keeps width, height and background colour, empty edge list, a fresh `width x height` buffer all in the background colour |
| InitialProgram.Canvas.SetPixel | 0-program/initial_program.py:11-13 | the cell (x, y) takes the colour iff 0 <= x < width and 0 <= y < height; every other cell is unchanged, and an out-of-range call changes nothing |
| InitialProgram.Canvas.DrawLine | 0-program/initial_program.py:15-44 | for any endpoints, even off the grid, the loop terminates, never faults, and leaves a cell with the colour iff it is on `LinePath(x0, y0, x1, y1)`, else unchanged |
| InitialProgram.Canvas.SetEight | 0-program/initial_program.py:52-59 | after the eight `set_pixel` calls a cell has the colour iff its offset from the center is one of the eight reflections of (x, y), else it is unchanged |
| InitialProgram.Canvas.DrawCircle | 0-program/initial_program.py:46-66 | the loop terminates and leaves a cell with the colour iff its offset from the center is in `CircleOffsets(r)`, else unchanged |
| Bresenham.Plan | 0-program/initial_program.py:16-28 | the values fixed before the loop lead from start to end: x moves `dx` units of `sx` = ±1 and y moves `dy` units of `sy` = ±1 |
| Bresenham.Step | 1-program/final_program.py:33-39 | one loop body moves each coordinate by 0 or one unit step, and moves at least one of them unless both deltas are 0 |
| Bresenham.CursorsNext | 0-program/initial_program.py:36-44 | before the end, the next loop state is the body's result: x steps by sx and err loses dy iff `2*err > -dy`, y steps by sy and err gains dx iff `2*err < dx` |
| Bresenham.StartOnTrack | 1-program/final_program.py:23-29 | the cursor on loop entry satisfies the loop invariant, and the remaining major-axis distance is max(dx, dy) |
| Bresenham.StepMoves | 1-program/final_program.py:33-39 | before the target, an axis that the step moves still has distance to go, and the axis of the larger delta always moves |
| Bresenham.StepKeepsTrack | 1-program/final_program.py:33-39 | one step keeps the loop invariant and reduces each remaining distance by exactly the unit it moved |
| Bresenham.StepAdvances | 1-program/final_program.py:31-39 | one step keeps the invariant, moves each coordinate by 0 or one unit toward the target, and shortens the remaining distance by one, so the loop terminates |
| Bresenham.OnTrackBetween | 1-program/final_program.py:31-39 | the cursor never leaves the endpoints' bounding box |
| Bresenham.Path | 1-program/final_program.py:31-40 | from an on-track cursor, the painted cells number the remaining distance plus one, starting at the cursor and ending at the target |
| Bresenham.LinePath | 1-program/final_program.py:22-40 | the line paints max(dx, dy) + 1 cells, the first at the start and the last at the end |
| Bresenham.Walk | 0-program/initial_program.py:30-44 | the loop variables from a cursor to the end: remaining distance plus one states, starting at that cursor |
| Bresenham.WalkFacts | 0-program/initial_program.py:30-44 | at iteration k the loop variables are on track and sit on the k-th painted cell; the exit test holds exactly at the last iteration; the next state is one loop step |
| Bresenham.Cursors | 0-program/initial_program.py:16-44 | one loop state per painted cell, the first being the start with `err = dx - dy` |
| Bresenham.CursorsFacts | 0-program/initial_program.py:30-44 | at every iteration the loop variables' cell is the painted cell, the break test holds only at the last, and the following state is the loop body's result |
| Bresenham.NearHugs | 1-program/final_program.py:31-40 | an on-track cell lies in the endpoints' bounding box and within half a pixel of the ideal segment |
| Bresenham.PathSteps | 1-program/final_program.py:31-39 | consecutive painted cells differ by 0 or one unit toward the target on each axis |
| Bresenham.PathNear | 1-program/final_program.py:31-40 | every painted cell is near the ideal segment |
| Bresenham.LineSteps | 0-program/initial_program.py:36-44 | consecutive cells move x by 0 or sx and y by 0 or sy (monotone, 8-connected), and always advance the axis of the larger delta |
| Bresenham.LineHugsSegment | 0-program/initial_program.py:15-44 | every painted cell lies in the endpoints' bounding box (no overshoot) and within half a pixel of the ideal segment along the minor axis |
| Bresenham.LineSinglePoint | 1-program/final_program.py:31-40 | equal endpoints: the loop body never runs and exactly that cell is painted |
| Bresenham.LineDiagonal | 0-program/initial_program.py:15-44 | equal deltas: the line is the exact diagonal (x0 + k*sx, y0 + k*sy) for k = 0..dx |
| Bresenham.LineSecondCell | 1-program/final_program.py:31-39 | the second painted cell is the start after one loop step |
| Bresenham.LineDependsOnDirection | 0-program/initial_program.py:15-44 | (0,0)→(2,1) paints (1,0) while (2,1)→(0,0) paints (1,1): the painted set is not symmetric under swapping the endpoints |
| Midpoint.Advance | 1-program/final_program.py:58-62 | one iteration raises y by one and lowers x by 0 or 1, so the loop `while x >= y` terminates |
| Midpoint.SweepAt | 1-program/final_program.py:44-62 | after k iterations the loop's y is k |
| Midpoint.OctantFrom | 1-program/final_program.py:48-62 | the offsets visited from iteration k on are the octant's suffix from k |
| Midpoint.OctantStep | 1-program/final_program.py:48 | the loop test `x >= y` holds at iteration k iff k is an octant index, and then (x, y) is the k-th octant offset |
| Midpoint.DrawnRing | 0-program/initial_program.py:51-66 | the offsets painted in the first k iterations are the reflections of the first k octant offsets |
| Midpoint.CircleDrawn | 0-program/initial_program.py:51-66 | when the loop test fails, the painted offsets are exactly `CircleOffsets(r)` |
| Midpoint.Reflected | 1-program/final_program.py:49-56 | one iteration writes eight cells |
| Midpoint.ReflectedMember | 1-program/final_program.py:49-56 | one iteration writes a cell iff its offset from the center is one of the eight reflections of (x, y) |
| Midpoint.Writes | 1-program/final_program.py:49-56 | eight writes per visited octant offset |
| Midpoint.WritesMember | 1-program/final_program.py:49-56 | a cell is written iff its offset from the center is a reflection of a visited offset |
| Midpoint.CircleWritesMember | 1-program/final_program.py:42-62 | the final version writes a cell iff its offset from the center is in `CircleOffsets(radius)` |
| Midpoint.WritesAt | 1-program/final_program.py:49-56 | writes 8k to 8k+7 are the eight reflections of the k-th offset, in the source's order |
| Midpoint.CircleWritesAt | 1-program/final_program.py:48-62 | in iteration k the eight writes are the reflections of the loop's current (x, y) |
| Midpoint.SweepShape | 0-program/initial_program.py:51-66 | from any state with y >= 0, the visited offsets have y rising by one per iteration, y <= x, and x never rising and falling by at most one |
| Midpoint.OctantShape | 0-program/initial_program.py:47-66 | the k-th offset has y = k and 0 <= y <= x <= r, the first is (r, 0), and x drops by at most one per iteration |
| Midpoint.RingMembers | 0-program/initial_program.py:52-59 | an offset is painted iff it is one of the eight reflections of a visited offset |
| Midpoint.ReflectionsClosed | 0-program/initial_program.py:52-59 | the eight reflections of an offset are closed under swapping and negating coordinates |
| Midpoint.RingSymmetric | 0-program/initial_program.py:52-59 | the painted offsets are closed under swapping and negating coordinates |
| Midpoint.CircleIsReflectedOctant | 0-program/initial_program.py:47-66 | an offset is painted iff it reflects a visited octant offset (a, b) with 0 <= b <= a <= r |
| Midpoint.CircleSymmetric | 0-program/initial_program.py:52-59 | the painted set is closed under the eight symmetries of the square, including the 90° rotation about the center |
| Midpoint.CircleWithinSquare | 0-program/initial_program.py:51-66 | every painted offset lies within the square of half-side r |
| Midpoint.CircleAxes | 0-program/initial_program.py:47-59 | for r >= 0 the four axis points at distance r are painted |
| Midpoint.CircleRadiusZero | 0-program/initial_program.py:47-66 | radius 0 paints only the center |
| Midpoint.CircleNegativeRadius | 1-program/final_program.py:44-48 | a negative radius fails the loop test at once and paints nothing |

## Left out

- Bézier and Hermite curves (1-program/final_program.py:64-83, 0-program/initial_program.py:68-73): floating-point polynomials and Python's round-half-to-even `round`.
- `rotate`, `dilation`, `translation` and `transform` (1-program/final_program.py:85-132): trigonometry and float division. `transform` also indexes a 3x3 matrix with indices up to 3 and raises for any non-empty edge list.
- `parse` (1-program/final_program.py:134-149): file input. Its calls also do not match the drawing methods' signatures.
- `save_image` (1-program/final_program.py:151-157) and the module-level demo script (1-program/final_program.py:159-181): image encoding and file output.
- The rest of 0-program/initial_program.py after line 73 is not part of this model.
- FinalProgram.GraphicsEngine.DrawLine: requires both endpoints on the canvas. Off the canvas the source raises `IndexError` past the end or below minus the length. A negative x counts back along its row, and a negative y picks a row counted back from the last. None of this is modelled.
- FinalProgram.GraphicsEngine.DrawCircle: requires the square of half-side radius around the center on the canvas, for the same reason.
- InitialProgram.Canvas.constructor: `__init__` (0-program/initial_program.py:5-9) never creates the pixel buffer, and nothing else in lines 1-73 of that file creates it. The model allocates a `width x height` buffer of the background colour.
- Colours are unbounded integer triples: the source stores any tuple it is given, and PIL's channel clamping happens only on saving.
- The `ghost` write logs returned by the drawing methods exist only in the proof; the source's methods return nothing.
