/** Bresenham's line algorithm as both drawing classes run it: the values
    fixed before the loop, one loop step as a function, and the sequence of
    cells the loop paints. Both `draw_line` methods are proved to paint
    exactly `LinePath`, in this order. */
module Bresenham {
  import opened Pixels

  /** What `draw_line` computes before its loop: the two endpoints, the
      absolute deltas and the unit step along each axis. */
  datatype Line = Line(x1: int, y1: int, x2: int, y2: int, dx: nat, dy: nat, sx: int, sy: int)

  /** The loop variables: the current cell and the error term. */
  datatype Cursor = Cursor(x: int, y: int, err: int)

  /** `1 if a < b else -1`: the step never reaches zero, even when a == b. */
  function Dir(a: int, b: int): int {
    if a < b then 1 else -1
  }

  /** The unit steps lead from the start to the end: `dx` steps of `sx`
      along x and `dy` steps of `sy` along y. */
  function Plan(x1: int, y1: int, x2: int, y2: int): (l: Line)
    ensures l.x1 == x1 && l.y1 == y1 && l.x2 == x2 && l.y2 == y2
    ensures (l.sx == 1 && x2 == x1 + l.dx) || (l.sx == -1 && x2 == x1 - l.dx)
    ensures (l.sy == 1 && y2 == y1 + l.dy) || (l.sy == -1 && y2 == y1 - l.dy)
  {
    Line(x1, y1, x2, y2, Abs(x2 - x1), Abs(y2 - y1), Dir(x1, x2), Dir(y1, y2))
  }

  /** The cursor on entry to the loop: `err = dx - dy`. */
  function Start(l: Line): Cursor {
    Cursor(l.x1, l.y1, l.dx - l.dy)
  }

  function Pos(c: Cursor): Point {
    Point(c.x, c.y)
  }

  predicate AtEnd(l: Line, c: Cursor) {
    c.x == l.x2 && c.y == l.y2
  }

  /** One pass of the loop body: `e2 = 2*err`; if `e2 > -dy` step x;
      if `e2 < dx` step y (both tests read the same `e2`). */
  function Step(l: Line, c: Cursor): (r: Cursor)
    ensures r.x == c.x || r.x == c.x + l.sx
    ensures r.y == c.y || r.y == c.y + l.sy
    ensures l.dx + l.dy > 0 ==> r.x == c.x + l.sx || r.y == c.y + l.sy
  {
    var e2 := 2 * c.err;
    var moveX := e2 > -(l.dy as int);
    var moveY := e2 < l.dx;
    Cursor(if moveX then c.x + l.sx else c.x,
           if moveY then c.y + l.sy else c.y,
           c.err - (if moveX then l.dy else 0) + (if moveY then l.dx else 0))
  }

  /** Distance still to go along x, measured in the direction of `sx`. */
  function RemX(l: Line, x: int): int {
    if l.sx == 1 then l.x2 - x else x - l.x2
  }

  /** Distance still to go along y, measured in the direction of `sy`. */
  function RemY(l: Line, y: int): int {
    if l.sy == 1 then l.y2 - y else y - l.y2
  }

  /** Distance still to go along the major axis (x on ties). */
  function Major(l: Line, c: Cursor): int {
    if l.dx >= l.dy then RemX(l, c.x) else RemY(l, c.y)
  }

  /** Multiplication of naturals by repeated addition. The error term is a
      product of distances; keeping it behind this recursive definition
      lets the solver unfold it one step at a time instead of reasoning
      about nonlinear arithmetic. */
  function Mul(a: nat, b: nat): nat {
    if a == 0 then 0 else Mul(a - 1, b) + b
  }

  lemma {:induction false} MulIsProduct(a: nat, b: nat)
    ensures Mul(a, b) == a * b
  {
    if a > 0 {
      MulIsProduct(a - 1, b);
    }
  }

  /** A larger first factor gives a product larger by at least `b`. */
  lemma {:induction false} MulGrows(a: nat, a': nat, b: nat)
    requires a < a'
    ensures Mul(a, b) + b <= Mul(a', b)
  {
    if a + 1 < a' {
      MulGrows(a, a' - 1, b);
    }
  }

  /** A cell lies in the endpoints' bounding box and within half a pixel,
      measured along the minor axis, of the ideal segment. */
  predicate Near(l: Line, p: Point) {
    && 0 <= RemX(l, p.x) <= l.dx
    && 0 <= RemY(l, p.y) <= l.dy
    && 2 * Abs(Mul(RemX(l, p.x), l.dy) - Mul(RemY(l, p.y), l.dx)) <= Max(l.dx, l.dy)
  }

  /** The loop invariant: the line was set up by `Plan`, the cursor is near
      the segment, and `err` is `dx - dy` plus the cross term of the
      remaining distances. */
  predicate OnTrack(l: Line, c: Cursor) {
    && l == Plan(l.x1, l.y1, l.x2, l.y2)
    && Near(l, Pos(c))
    && c.err == l.dx - l.dy + Mul(RemX(l, c.x), l.dy) - Mul(RemY(l, c.y), l.dx)
  }

  lemma StartOnTrack(l: Line)
    requires l == Plan(l.x1, l.y1, l.x2, l.y2)
    ensures OnTrack(l, Start(l))
    ensures Major(l, Start(l)) == Max(l.dx, l.dy)
  {
    assert RemX(l, l.x1) == l.dx;
    assert RemY(l, l.y1) == l.dy;
    MulIsProduct(l.dx, l.dy);
    MulIsProduct(l.dy, l.dx);
  }

  /** On a diagonal the cross term `Mul(u, d) - Mul(v, d)` is a multiple of
      `d`, so half a pixel forces it to zero. */
  lemma CrossTermDiagonal(u: nat, v: nat, d: nat)
    requires 2 * Abs(Mul(u, d) - Mul(v, d)) <= d
    ensures Mul(u, d) == Mul(v, d)
  {
    if u < v {
      MulGrows(u, v, d);
    } else if v < u {
      MulGrows(v, u, d);
    }
  }

  /** The decision of one step, in terms of the remaining distances `u`,
      `v` and the cross term `d` (so that `err = dx - dy + d`): a moving
      coordinate still has distance to go, the major axis always moves,
      and the cross term stays within half a pixel. */
  lemma StepDecision(u: int, v: int, dx: int, dy: int, d: int)
    requires 0 <= u <= dx && 0 <= v <= dy && (u > 0 || v > 0)
    requires 2 * Abs(d) <= Max(dx, dy)
    requires u == 0 ==> d <= -dx
    requires v == 0 ==> d >= dy
    requires dx == dy ==> d == 0
    ensures 2 * (dx - dy + d) > -dy ==> u >= 1
    ensures 2 * (dx - dy + d) < dx ==> v >= 1
    ensures dx >= dy ==> 2 * (dx - dy + d) > -dy
    ensures dy >= dx ==> 2 * (dx - dy + d) < dx
    ensures var moveX, moveY := 2 * (dx - dy + d) > -dy, 2 * (dx - dy + d) < dx;
      2 * Abs(d - (if moveX then dy else 0) + (if moveY then dx else 0)) <= Max(dx, dy)
  {
  }

  /** The two tests of the loop body, on `e2 = 2*err`. */
  predicate MovesX(l: Line, c: Cursor) {
    2 * c.err > -(l.dy as int)
  }

  predicate MovesY(l: Line, c: Cursor) {
    2 * c.err < l.dx
  }

  /** Before the target is reached, a coordinate the step moves still has
      distance to go, the major axis always moves, and the cross term after
      the step is still within half a pixel. */
  lemma StepMoves(l: Line, c: Cursor)
    requires OnTrack(l, c) && !AtEnd(l, c)
    ensures MovesX(l, c) ==> RemX(l, c.x) >= 1
    ensures MovesY(l, c) ==> RemY(l, c.y) >= 1
    ensures l.dx >= l.dy ==> MovesX(l, c)
    ensures l.dy >= l.dx ==> MovesY(l, c)
    ensures 2 * Abs(c.err - l.dx + l.dy - (if MovesX(l, c) then l.dy else 0)
                    + (if MovesY(l, c) then l.dx else 0)) <= Max(l.dx, l.dy)
  {
    var u, v := RemX(l, c.x), RemY(l, c.y);
    var dx, dy := l.dx, l.dy;
    var d := Mul(u, dy) - Mul(v, dx);
    if u == 0 {
      assert v > 0 && Mul(v, dx) == Mul(v - 1, dx) + dx;
    }
    if v == 0 {
      assert u > 0 && Mul(u, dy) == Mul(u - 1, dy) + dy;
    }
    if dx == dy {
      CrossTermDiagonal(u, v, dx);
    }
    StepDecision(u, v, dx, dy, d);
  }

  /** One step keeps the invariant. */
  lemma StepKeepsTrack(l: Line, c: Cursor)
    requires OnTrack(l, c) && !AtEnd(l, c)
    ensures OnTrack(l, Step(l, c))
    ensures RemX(l, Step(l, c).x) == RemX(l, c.x) - (if MovesX(l, c) then 1 else 0)
    ensures RemY(l, Step(l, c).y) == RemY(l, c.y) - (if MovesY(l, c) then 1 else 0)
  {
    StepMoves(l, c);
    var u, v := RemX(l, c.x), RemY(l, c.y);
    var dx, dy := l.dx, l.dy;
    var n := Step(l, c);
    var u' := if MovesX(l, c) then u - 1 else u;
    var v' := if MovesY(l, c) then v - 1 else v;
    assert RemX(l, n.x) == u' && RemY(l, n.y) == v';
    assert Mul(u', dy) == Mul(u, dy) - (if MovesX(l, c) then dy else 0);
    assert Mul(v', dx) == Mul(v, dx) - (if MovesY(l, c) then dx else 0);
  }

  /** One step keeps the invariant, moves each coordinate by 0 or one unit
      toward the target (never past it), always moves the major axis, and
      so shortens the major distance by exactly one. */
  lemma StepAdvances(l: Line, c: Cursor)
    requires OnTrack(l, c) && !AtEnd(l, c)
    ensures OnTrack(l, Step(l, c))
    ensures Major(l, Step(l, c)) == Major(l, c) - 1
    ensures Step(l, c).x == c.x || Step(l, c).x == c.x + l.sx
    ensures Step(l, c).y == c.y || Step(l, c).y == c.y + l.sy
    ensures l.dx >= l.dy ==> Step(l, c).x == c.x + l.sx
    ensures l.dy >= l.dx ==> Step(l, c).y == c.y + l.sy
  {
    StepMoves(l, c);
    StepKeepsTrack(l, c);
  }

  /** The cells the loop paints from cursor `c` on, in order: the current
      cell, then the rest after one step, ending with the target cell. */
  function Path(l: Line, c: Cursor): (p: seq<Point>)
    requires OnTrack(l, c)
    ensures |p| == Major(l, c) + 1
    ensures p[0] == Pos(c) && p[|p| - 1] == Point(l.x2, l.y2)
    decreases Major(l, c)
  {
    if AtEnd(l, c) then
      assert Major(l, c) == 0;
      [Pos(c)]
    else
      StepAdvances(l, c);
      [Pos(c)] + Path(l, Step(l, c))
  }

  /** A cursor on track lies in the bounding box of the two endpoints. */
  lemma OnTrackBetween(l: Line, c: Cursor)
    requires OnTrack(l, c)
    ensures Between(l.x1, c.x, l.x2) && Between(l.y1, c.y, l.y2)
  {
  }

  /** The cells `draw_line` paints for the endpoints (x1, y1) and (x2, y2),
      in the order it paints them: one cell per unit of the larger delta,
      starting at the first endpoint and ending at the second. */
  function LinePath(x1: int, y1: int, x2: int, y2: int): (p: seq<Point>)
    ensures |p| == Max(Abs(x2 - x1), Abs(y2 - y1)) + 1
    ensures p[0] == Point(x1, y1) && p[|p| - 1] == Point(x2, y2)
  {
    var l := Plan(x1, y1, x2, y2);
    StartOnTrack(l);
    Path(l, Start(l))
  }

  /** The loop variables at every iteration, from cursor `c` to the end. */
  function Walk(l: Line, c: Cursor): (w: seq<Cursor>)
    requires OnTrack(l, c)
    ensures |w| == Major(l, c) + 1 && w[0] == c
    decreases Major(l, c)
  {
    if AtEnd(l, c) then
      assert Major(l, c) == 0;
      [c]
    else
      StepAdvances(l, c);
      [c] + Walk(l, Step(l, c))
  }

  /** The k-th cursor of a walk is on track, sits on the k-th cell of the
      path, is at the end exactly when it is the last one, and is followed
      by its `Step`. */
  lemma {:induction false} WalkFacts(l: Line, c: Cursor, k: int)
    requires OnTrack(l, c) && 0 <= k < |Walk(l, c)|
    ensures OnTrack(l, Walk(l, c)[k])
    ensures Pos(Walk(l, c)[k]) == Path(l, c)[k]
    ensures AtEnd(l, Walk(l, c)[k]) <==> k == |Walk(l, c)| - 1
    ensures k + 1 < |Walk(l, c)| ==> Walk(l, c)[k + 1] == Step(l, Walk(l, c)[k])
    decreases Major(l, c)
  {
    if !AtEnd(l, c) {
      var n := Step(l, c);
      StepAdvances(l, c);
      assert Walk(l, c) == [c] + Walk(l, n);
      assert Path(l, c) == [Pos(c)] + Path(l, n);
      if k > 0 {
        WalkFacts(l, n, k - 1);
      }
    }
  }

  /** The loop variables of `draw_line` at every iteration. */
  function Cursors(x1: int, y1: int, x2: int, y2: int): (cs: seq<Cursor>)
    ensures |cs| == |LinePath(x1, y1, x2, y2)|
    ensures cs[0] == Cursor(x1, y1, Abs(x2 - x1) - Abs(y2 - y1))
  {
    var l := Plan(x1, y1, x2, y2);
    StartOnTrack(l);
    Walk(l, Start(l))
  }

  /** What the loop of `draw_line` relies on at iteration k: the cursor
      sits on the k-th cell of `LinePath` inside the bounding box of the
      endpoints, the loop test fails exactly at the last cursor, and the
      loop body takes each cursor to the next. */
  lemma CursorsFacts(x1: int, y1: int, x2: int, y2: int, k: int)
    requires 0 <= k < |Cursors(x1, y1, x2, y2)|
    ensures var cs := Cursors(x1, y1, x2, y2);
      && Pos(cs[k]) == LinePath(x1, y1, x2, y2)[k]
      && Between(x1, cs[k].x, x2) && Between(y1, cs[k].y, y2)
      && ((cs[k].x == x2 && cs[k].y == y2) <==> k == |cs| - 1)
      && (k + 1 < |cs| ==> cs[k + 1] == Step(Plan(x1, y1, x2, y2), cs[k]))
  {
    var l := Plan(x1, y1, x2, y2);
    StartOnTrack(l);
    WalkFacts(l, Start(l), k);
    OnTrackBetween(l, Walk(l, Start(l))[k]);
  }

  /** Before the end, the loop state after one more pass is what the body
      computes from its two tests on `e2 = 2*err`, with the deltas and unit
      steps fixed before the loop. */
  lemma CursorsNext(x1: int, y1: int, x2: int, y2: int, k: int)
    requires 0 <= k < |Cursors(x1, y1, x2, y2)|
    requires Cursors(x1, y1, x2, y2)[k].x != x2 || Cursors(x1, y1, x2, y2)[k].y != y2
    ensures k + 1 < |Cursors(x1, y1, x2, y2)|
    ensures var c, dx, dy := Cursors(x1, y1, x2, y2)[k], Abs(x2 - x1) as int, Abs(y2 - y1) as int;
      var e2 := 2 * c.err;
      Cursors(x1, y1, x2, y2)[k + 1] ==
        Cursor(if e2 > -dy then c.x + Dir(x1, x2) else c.x, if e2 < dx then c.y + Dir(y1, y2) else c.y,
               c.err - (if e2 > -dy then dy else 0) + (if e2 < dx then dx else 0))
  {
    CursorsFacts(x1, y1, x2, y2, k);
  }

  /** Twice the signed area spanned by `p - a` and `b - a`: zero exactly on
      the ideal line through `a` and `b`. */
  function Cross(a: Point, b: Point, p: Point): int {
    (p.x - a.x) * (b.y - a.y) - (p.y - a.y) * (b.x - a.x)
  }

  /** Flipping the sign of either axis leaves the size of a cross product
      unchanged. */
  lemma CrossSigns(sx: int, sy: int, a: int, b: int, dx: int, dy: int)
    requires (sx == 1 || sx == -1) && (sy == 1 || sy == -1)
    ensures Abs((sx * a) * (sy * dy) - (sy * b) * (sx * dx)) == Abs(a * dy - b * dx)
  {
    if sx == 1 && sy == 1 {
    } else if sx == 1 {
      assert (sx * a) * (sy * dy) == -(a * dy) && (sy * b) * (sx * dx) == -(b * dx);
    } else if sy == 1 {
      assert (sx * a) * (sy * dy) == -(a * dy) && (sy * b) * (sx * dx) == -(b * dx);
    } else {
      assert (sx * a) * (sy * dy) == a * dy && (sy * b) * (sx * dx) == b * dx;
    }
  }

  /** The cross product measured from the start equals, up to sign, the one
      measured on the remaining distances. */
  lemma CrossFromStart(u: int, v: int, dx: int, dy: int)
    ensures (dx - u) * dy - (dy - v) * dx == -(u * dy - v * dx)
  {
    assert (dx - u) * dy == dx * dy - u * dy;
    assert (dy - v) * dx == dy * dx - v * dx;
  }

  /** `Near`, restated about the endpoints themselves: the cell lies in their
      bounding box and its cross product with the segment is at most half
      the larger delta. */
  lemma NearHugs(l: Line, p: Point)
    requires l == Plan(l.x1, l.y1, l.x2, l.y2) && Near(l, p)
    ensures Between(l.x1, p.x, l.x2) && Between(l.y1, p.y, l.y2)
    ensures 2 * Abs(Cross(Point(l.x1, l.y1), Point(l.x2, l.y2), p)) <= Max(l.dx, l.dy)
  {
    var u, v := RemX(l, p.x), RemY(l, p.y);
    var a, b := l.dx - u, l.dy - v;
    assert p.x - l.x1 == l.sx * a && l.x2 - l.x1 == l.sx * l.dx;
    assert p.y - l.y1 == l.sy * b && l.y2 - l.y1 == l.sy * l.dy;
    CrossSigns(l.sx, l.sy, a, b, l.dx, l.dy);
    CrossFromStart(u, v, l.dx, l.dy);
    MulIsProduct(u, l.dy);
    MulIsProduct(v, l.dx);
  }

  /** `b` follows `a` on a path of `l`: each coordinate stays or moves one
      unit toward the target, and the major axis moves. */
  predicate Follows(l: Line, a: Point, b: Point) {
    && (b.x == a.x || b.x == a.x + l.sx)
    && (b.y == a.y || b.y == a.y + l.sy)
    && (l.dx >= l.dy ==> b.x == a.x + l.sx)
    && (l.dy >= l.dx ==> b.y == a.y + l.sy)
  }

  /** Consecutive cells of a path are related by `Follows`. */
  lemma {:induction false} PathSteps(l: Line, c: Cursor)
    requires OnTrack(l, c)
    ensures forall k :: 0 <= k < |Path(l, c)| - 1 ==> Follows(l, Path(l, c)[k], Path(l, c)[k + 1])
    decreases Major(l, c)
  {
    if !AtEnd(l, c) {
      var n := Step(l, c);
      StepAdvances(l, c);
      PathSteps(l, n);
      var p, q := Path(l, c), Path(l, n);
      assert p == [Pos(c)] + q;
      assert Follows(l, p[0], p[1]);
      forall k | 1 <= k < |p| - 1
        ensures Follows(l, p[k], p[k + 1])
      {
        assert p[k] == q[k - 1] && p[k + 1] == q[k];
      }
    }
  }

  /** Every cell of a path is `Near` the segment. */
  lemma {:induction false} PathNear(l: Line, c: Cursor)
    requires OnTrack(l, c)
    ensures forall q :: q in Path(l, c) ==> Near(l, q)
    decreases Major(l, c)
  {
    if !AtEnd(l, c) {
      StepAdvances(l, c);
      PathNear(l, Step(l, c));
    }
  }

  /** `draw_line` moves between painted cells by at most one unit per axis,
      always toward the second endpoint (so x and y are monotone and the
      path is 8-connected), and advances the axis of the larger delta on
      every step, which also makes consecutive cells distinct. */
  lemma LineSteps(x1: int, y1: int, x2: int, y2: int)
    ensures var p, sx, sy := LinePath(x1, y1, x2, y2), Dir(x1, x2), Dir(y1, y2);
      forall k :: 0 <= k < |p| - 1 ==>
        && (p[k + 1].x == p[k].x || p[k + 1].x == p[k].x + sx)
        && (p[k + 1].y == p[k].y || p[k + 1].y == p[k].y + sy)
        && (Abs(x2 - x1) >= Abs(y2 - y1) ==> p[k + 1].x == p[k].x + sx)
        && (Abs(y2 - y1) >= Abs(x2 - x1) ==> p[k + 1].y == p[k].y + sy)
  {
    var l := Plan(x1, y1, x2, y2);
    StartOnTrack(l);
    PathSteps(l, Start(l));
  }

  /** Every cell `draw_line` paints lies in the endpoints' bounding box (the
      line never overshoots) and within half a pixel of the ideal segment,
      measured along the axis of the smaller delta: the nearest-pixel line. */
  lemma LineHugsSegment(x1: int, y1: int, x2: int, y2: int)
    ensures forall q :: q in LinePath(x1, y1, x2, y2) ==>
      && Between(x1, q.x, x2) && Between(y1, q.y, y2)
      && 2 * Abs(Cross(Point(x1, y1), Point(x2, y2), q)) <= Max(Abs(x2 - x1), Abs(y2 - y1))
  {
    var l := Plan(x1, y1, x2, y2);
    StartOnTrack(l);
    PathNear(l, Start(l));
    forall q | q in LinePath(x1, y1, x2, y2)
      ensures Between(x1, q.x, x2) && Between(y1, q.y, y2)
      ensures 2 * Abs(Cross(Point(x1, y1), Point(x2, y2), q)) <= Max(Abs(x2 - x1), Abs(y2 - y1))
    {
      NearHugs(l, q);
    }
  }

  /** Equal endpoints: the loop body never runs and one cell is painted. */
  lemma LineSinglePoint(x: int, y: int)
    ensures LinePath(x, y, x, y) == [Point(x, y)]
  {
  }

  /** When the deltas are equal the line is the exact diagonal
      `(x1 + k*sx, y1 + k*sy)` for `k = 0..dx`. */
  lemma LineDiagonal(x1: int, y1: int, x2: int, y2: int)
    requires Abs(x2 - x1) == Abs(y2 - y1)
    ensures var sx, sy := Dir(x1, x2), Dir(y1, y2);
      LinePath(x1, y1, x2, y2) == seq(Abs(x2 - x1) + 1, k => Point(x1 + k * sx, y1 + k * sy))
  {
    var p, sx, sy := LinePath(x1, y1, x2, y2), Dir(x1, x2), Dir(y1, y2);
    var diagonal := seq(Abs(x2 - x1) + 1, k => Point(x1 + k * sx, y1 + k * sy));
    LineSteps(x1, y1, x2, y2);
    var k := 0;
    while k < |p|
      invariant 0 <= k <= |p|
      invariant forall j :: 0 <= j < k ==> p[j] == diagonal[j]
    {
      if k > 0 {
        assert p[k] == Point(p[k - 1].x + sx, p[k - 1].y + sy);
        assert (k - 1) * sx + sx == k * sx && (k - 1) * sy + sy == k * sy;
      }
      k := k + 1;
    }
  }

  /** The second cell `draw_line` paints is the cursor after one step. */
  lemma LineSecondCell(x1: int, y1: int, x2: int, y2: int)
    requires x1 != x2 || y1 != y2
    ensures var l := Plan(x1, y1, x2, y2);
      |LinePath(x1, y1, x2, y2)| >= 2 && LinePath(x1, y1, x2, y2)[1] == Pos(Step(l, Start(l)))
  {
    var l := Plan(x1, y1, x2, y2);
    StartOnTrack(l);
    StepAdvances(l, Start(l));
  }

  /** The painted set depends on the direction: from (0,0) to (2,1) the
      middle cell is (1,0), from (2,1) back to (0,0) it is (1,1), so the
      painted sets differ. */
  lemma LineDependsOnDirection()
    ensures LinePath(0, 0, 2, 1) == [Point(0, 0), Point(1, 0), Point(2, 1)]
    ensures LinePath(2, 1, 0, 0) == [Point(2, 1), Point(1, 1), Point(0, 0)]
  {
    LineSecondCell(0, 0, 2, 1);
    var p := LinePath(0, 0, 2, 1);
    assert p == [p[0], p[1], p[2]];
    LineSecondCell(2, 1, 0, 0);
    var q := LinePath(2, 1, 0, 0);
    assert q == [q[0], q[1], q[2]];
  }
}
